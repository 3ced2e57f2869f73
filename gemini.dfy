/** The offline stand-in for a text generator: it assembles a random receipt
    from fixed tables and classifies an item name by keywords to pick a
    polaroid story. Every `Math.random()` it draws is a parameter here. */
module GeminiService {
  import opened Common
  import opened ReceiptTypes

  const Cashiers: seq<string> := ["教务处", "辅导员", "面试官", "宿管阿姨", "Debug大神", "GitHub", "StackOverflow"]

  /** A receipt line before its quantity is settled; `qty` is absent for the
      table entries. */
  datatype Draft = Draft(name: string, price: string, qty: Option<int>)

  const CsItems: seq<Draft> := [
    Draft("Hello World", "梦开始的地方", None),
    Draft("高等数学", "挂科预警", None),
    Draft("线性代数", "天书", None),
    Draft("C语言程序设计", "指针劝退", None),
    Draft("Java大作业", "面向对象", None),
    Draft("Python脚本", "人生苦短", None),
    Draft("MySQL删库", "跑路", None),
    Draft("Git Push -f", "事故现场", None),
    Draft("404对象", "Not Found", None),
    Draft("单身狗粮", "第二份半价", None),
    Draft("通宵修仙", "发际线+1mm", None),
    Draft("早八", "起床失败", None),
    Draft("食堂阿姨", "手抖", None),
    Draft("冰美式", "续命水", None),
    Draft("Bug", "一红一片", None),
    Draft("蓝屏", "崩溃", None),
    Draft("奖学金", "请客吃饭", None),
    Draft("CET-6", "424分", None),
    Draft("毕业论文", "查重率99%", None),
    Draft("实习工资", "白菜价", None)
  ]

  const TotalLabels: seq<string> := ["大学进度", "发量剩余", "精神状态", "代码行数", "GPA"]
  const TotalValues: seq<string> := ["Loading...", "Error", "Warning", "404", "2.5", "Null", "Stack Overflow"]
  const TaxLabels: seq<string> := ["额外支出", "健康损耗", "精神损失费"]
  const TaxValues: seq<string> := ["颈椎", "视力-1.0", "睡眠", "黑眼圈", "发量"]

  const Stories: seq<string> := [
    "本地运行正常，上线直接报错，这很合理。",
    "凌晨三点的提交记录，是强者的证明。",
    "没有什么是一个 sudo rm -rf /* 解决不了的。",
    "Ctrl+C 和 Ctrl+V 是我最熟练的两个快捷键。",
    "注释写得好，甚至比代码还能跑。",
    "这不是Bug，这是一个未被发现的Feature。",
    "为了改一个Bug，我又引入了三个新Bug。",
    "看到 Warning 直接忽略，只要没有 Error 就行。",
    "键盘敲击声是我听过最美妙的音乐。",
    "比起女朋友，我更想要一个不报错的控制台。"
  ]

  const DefaultImage: string := "https://images.pexels.com/photos/57980/pexels-photo-57980.jpeg?auto=compress&cs=tinysrgb&w=600"

  const CustomPrice: string := "自定义经历"
  const ObjectItem: Draft := Draft("找对象", "Not Found", Some(404))

  /** `getRandom(arr)` with `r` the value `Math.random()` returned. */
  function GetRandom<T>(arr: seq<T>, r: real): (x: T)
    requires |arr| > 0 && 0.0 <= r < 1.0
    ensures x in arr
  {
    arr[Pick(r, |arr|)]
  }

  function Min(a: int, b: int): int {
    if a <= b then a else b
  }

  /** `order` lists the positions `0 .. n-1`, each once. */
  predicate IsPermutation(order: seq<nat>, n: nat) {
    && |order| == n
    && (forall i :: 0 <= i < n ==> order[i] < n)
    && (forall i, j :: 0 <= i < j < n ==> order[i] != order[j])
  }

  /** `getRandomSubset(arr, count)`: the random sort leaves `[...arr]` in the
      order `order` (a permutation of its positions), and the first `count`
      elements are taken. The result therefore holds elements from distinct
      positions of `arr`. */
  function GetRandomSubset<T>(arr: seq<T>, count: nat, order: seq<nat>): (r: seq<T>)
    requires IsPermutation(order, |arr|)
    ensures |r| == Min(count, |arr|)
    ensures forall i :: 0 <= i < |r| ==> r[i] == arr[order[i]] && r[i] in arr
  {
    seq(Min(count, |arr|), i requires 0 <= i < Min(count, |arr|) => arr[order[i]])
  }

  /** The characters `String.prototype.trim` removes: white space and line
      terminators of ECMAScript. */
  predicate IsJsWhitespace(c: char) {
    c == '\t' || c == '\n' || c == '\U{000B}' || c == '\U{000C}' || c == '\r' || c == ' '
    || c == '\U{00A0}' || c == '\U{1680}' || ('\U{2000}' <= c <= '\U{200A}')
    || c == '\U{2028}' || c == '\U{2029}' || c == '\U{202F}' || c == '\U{205F}'
    || c == '\U{3000}' || c == '\U{FEFF}'
  }

  /** `userPrompt && userPrompt.trim() !== ""`. */
  predicate HasContent(prompt: string) {
    exists i :: 0 <= i < |prompt| && !IsJsWhitespace(prompt[i])
  }

  /** The name of the custom item: the prompt, cut to ten characters and
      marked with `...` when it is longer. */
  function CustomItemName(prompt: string): (name: string)
    ensures |prompt| <= 10 ==> name == prompt
    ensures |prompt| > 10 ==> |name| == 13 && name[..10] == prompt[..10] && name[10..] == "..."
  {
    if |prompt| > 10 then prompt[..10] + "..." else prompt
  }

  predicate MentionsObject(items: seq<Draft>) {
    exists i :: 0 <= i < |items| && Contains(items[i].name, "对象")
  }

  /** Each item is a table entry, the "对象" item or, first in the list, the
      custom item. */
  predicate DrawnFrom(items: seq<Draft>, table: seq<Draft>, prompt: string) {
    forall i :: 0 <= i < |items| ==> items[i] in table || items[i] == ObjectItem || (HasContent(prompt) && i == 0)
  }

  /** The item list of `generateReceipt` before quantities: a random subset of
      the table, the custom item put in front (`unshift`) when the prompt has
      content, and "找对象" appended (`push`) when no name mentions "对象". */
  method AssembleItems(prompt: string, count: nat, table: seq<Draft>, order: seq<nat>) returns (items: seq<Draft>)
    requires IsPermutation(order, |table|)
    ensures MentionsObject(items)
    ensures Min(count, |table|) <= |items| <= Min(count, |table|) + 2
    ensures HasContent(prompt) ==> items[0] == Draft(CustomItemName(prompt), CustomPrice, Some(1))
    ensures DrawnFrom(items, table, prompt)
  {
    items := GetRandomSubset(table, count, order);
    if HasContent(prompt) {
      items := [Draft(CustomItemName(prompt), CustomPrice, Some(1))] + items;
    }
    if !(exists i :: 0 <= i < |items| && Contains(items[i].name, "对象")) {
      items := items + [ObjectItem];
      ObjectItemMentionsObject();
      assert Contains(items[|items| - 1].name, "对象");
    }
  }

  lemma ObjectItemMentionsObject()
    ensures Contains(ObjectItem.name, "对象")
  {
    ContainsAt(ObjectItem.name, "对象", 1);
  }

  /** The random numbers one quantity may draw: `Math.random() > 0.8` decides
      between 1024 and `Math.floor(Math.random() * 5) + 1`. */
  datatype QtyRoll = QtyRoll(big: real, small: real)

  predicate ValidRoll(q: QtyRoll) {
    0.0 <= q.big < 1.0 && 0.0 <= q.small < 1.0
  }

  /** `item.qty || (Math.random() > 0.8 ? 1024 : Math.floor(Math.random() * 5) + 1)`. */
  function Quantity(qty: Option<int>, roll: QtyRoll): (q: int)
    requires ValidRoll(roll)
    ensures qty.Some? && qty.value != 0 ==> q == qty.value
    ensures !(qty.Some? && qty.value != 0) ==> q == 1024 || 1 <= q <= 5
    ensures !(qty.Some? && qty.value != 0) ==> (q == 1024 <==> roll.big > 0.8)
  {
    if qty.Some? && qty.value != 0 then qty.value
    else if roll.big > 0.8 then 1024
    else Pick(roll.small, 5) + 1
  }

  /** `items.map(item => ({...item, qty: ...}))`. */
  function AssignQuantities(items: seq<Draft>, rolls: seq<QtyRoll>): (r: seq<ReceiptItem>)
    requires |rolls| >= |items| && forall i :: 0 <= i < |rolls| ==> ValidRoll(rolls[i])
    ensures |r| == |items|
    ensures forall i :: 0 <= i < |items| ==>
      r[i].name == items[i].name && r[i].price == items[i].price && r[i].qty == Quantity(items[i].qty, rolls[i])
  {
    if items == [] then []
    else
      [ReceiptItem(items[0].name, Quantity(items[0].qty, rolls[0]), items[0].price)]
      + AssignQuantities(items[1..], rolls[1..])
  }

  /** Settling the quantities keeps the names, so the "对象" item and the
      custom item survive it, and leaves no quantity at zero. */
  lemma QuantitiesKeepItems(prompt: string, drafts: seq<Draft>, rolls: seq<QtyRoll>)
    requires |rolls| >= |drafts| && forall i :: 0 <= i < |rolls| ==> ValidRoll(rolls[i])
    requires MentionsObject(drafts)
    requires HasContent(prompt) ==> |drafts| > 0 && drafts[0] == Draft(CustomItemName(prompt), CustomPrice, Some(1))
    ensures var items := AssignQuantities(drafts, rolls);
      && ItemMentionsObject(items)
      && (forall i :: 0 <= i < |items| ==> items[i].qty != 0)
      && (HasContent(prompt) ==> items[0] == ReceiptItem(CustomItemName(prompt), 1, CustomPrice))
  {
    var items := AssignQuantities(drafts, rolls);
    var i :| 0 <= i < |drafts| && Contains(drafts[i].name, "对象");
    assert items[i].name == drafts[i].name;
  }

  /** Every `Math.random()` one call of `generateReceipt` draws. */
  datatype Dice = Dice(
    countRoll: real,
    order: seq<nat>,
    qtyRolls: seq<QtyRoll>,
    cashier: real,
    totalLabel: real,
    totalValue: real,
    taxLabel: real,
    taxValue: real)

  predicate ValidDice(d: Dice) {
    && 0.0 <= d.countRoll < 1.0
    && IsPermutation(d.order, |CsItems|)
    && |d.qtyRolls| >= 8 && (forall i :: 0 <= i < |d.qtyRolls| ==> ValidRoll(d.qtyRolls[i]))
    && 0.0 <= d.cashier < 1.0 && 0.0 <= d.totalLabel < 1.0 && 0.0 <= d.totalValue < 1.0
    && 0.0 <= d.taxLabel < 1.0 && 0.0 <= d.taxValue < 1.0
  }

  predicate ItemMentionsObject(items: seq<ReceiptItem>) {
    exists i :: 0 <= i < |items| && Contains(items[i].name, "对象")
  }

  /** `generateReceipt(userPrompt)`. */
  method GenerateReceipt(prompt: string, dice: Dice) returns (receipt: ReceiptData)
    requires ValidDice(dice)
    ensures 4 <= |receipt.items| <= 8
    ensures ItemMentionsObject(receipt.items)
    ensures HasContent(prompt) ==> receipt.items[0] == ReceiptItem(CustomItemName(prompt), 1, CustomPrice)
    ensures forall i :: 0 <= i < |receipt.items| ==> receipt.items[i].qty != 0
    ensures receipt.dateRange == "2006.02.09 - 2026.02.09"
    ensures receipt.cashier in Cashiers && receipt.totalLabel in TotalLabels && receipt.totalValue in TotalValues
    ensures receipt.taxLabel in TaxLabels && receipt.taxValue in TaxValues
    ensures receipt.hiddenContent == None && receipt.hiddenStory == None && receipt.hiddenImage == None
  {
    var items := ReceiptItems(prompt, dice);
    var cashier := GetRandom(Cashiers, dice.cashier);
    var totalLabel := GetRandom(TotalLabels, dice.totalLabel);
    var totalValue := GetRandom(TotalValues, dice.totalValue);
    var taxLabel := GetRandom(TaxLabels, dice.taxLabel);
    var taxValue := GetRandom(TaxValues, dice.taxValue);
    receipt := ReceiptData("2006.02.09 - 2026.02.09", cashier, items, totalLabel, totalValue, taxLabel, taxValue, None, None, None);
  }

  lemma CsItemsLength()
    ensures |CsItems| == 20
  {
  }

  /** The items of `generateReceipt`: `Math.floor(Math.random() * 3) + 4`
      entries of the table, the custom and "对象" items, and their quantities. */
  method ReceiptItems(prompt: string, dice: Dice) returns (items: seq<ReceiptItem>)
    requires ValidDice(dice)
    ensures 4 <= |items| <= 8
    ensures ItemMentionsObject(items)
    ensures HasContent(prompt) ==> items[0] == ReceiptItem(CustomItemName(prompt), 1, CustomPrice)
    ensures forall i :: 0 <= i < |items| ==> items[i].qty != 0
  {
    var count := Pick(dice.countRoll, 3) + 4;
    CsItemsLength();
    var drafts := AssembleItems(prompt, count, CsItems, dice.order);
    items := AssignQuantities(drafts, dice.qtyRolls);
    QuantitiesKeepItems(prompt, drafts, dice.qtyRolls);
  }

  // ---- generatePolaroidStory ----

  /** One keyword rule: any keyword occurring in the name selects the story. */
  datatype Rule = Rule(keywords: seq<string>, story: string)

  /** The rules of `generatePolaroidStory` in the order they are tried. */
  const Rules: seq<Rule> := [
    Rule(["Bug", "代码", "Java", "C语言"], "只有在编译通过的那一刻，世界才是美好的。"),
    Rule(["对象", "404"], "对象(Object)可以New一个，但生活不行。"),
    Rule(["食堂", "饭", "美式"], "咖啡是把代码转换成屎山的燃料。"),
    Rule(["高数", "挂科", "学"], "只要专业选得好，年年期末胜高考。"),
    Rule(["头发", "修仙"], "我的发际线，是我变强的见证。")
  ]

  predicate Matches(name: string, rule: Rule) {
    exists k :: 0 <= k < |rule.keywords| && Contains(name, rule.keywords[k])
  }

  /** The story of the first rule that matches, if any. */
  function FirstMatch(name: string, rules: seq<Rule>): (r: Option<string>)
    ensures r.Some? <==> exists j :: 0 <= j < |rules| && Matches(name, rules[j])
  {
    if rules == [] then None
    else if Matches(name, rules[0]) then Some(rules[0].story)
    else FirstMatch(name, rules[1..])
  }

  /** The story for an item name: that of the first matching rule, else a
      random one of `Stories` (`r` is the `Math.random()` behind `getRandom`). */
  function StoryFor(name: string, r: real): string
    requires 0.0 <= r < 1.0
  {
    match FirstMatch(name, Rules)
    case Some(s) => s
    case None => GetRandom(Stories, r)
  }

  /** `generatePolaroidStory(receiptItem)`: the candidate story is drawn
      first, then overridden by the first rule whose keyword occurs in the name. */
  method GeneratePolaroidStory(receiptItem: string, r: real) returns (items: seq<HiddenContentItem>)
    requires 0.0 <= r < 1.0
    ensures items == [HiddenContentItem("1", Image, DefaultImage), HiddenContentItem("2", Text, StoryFor(receiptItem, r))]
  {
    var storyText := GetRandom(Stories, r);
    if Contains(receiptItem, "Bug") || Contains(receiptItem, "代码") || Contains(receiptItem, "Java") || Contains(receiptItem, "C语言") {
      storyText := "只有在编译通过的那一刻，世界才是美好的。";
    } else if Contains(receiptItem, "对象") || Contains(receiptItem, "404") {
      storyText := "对象(Object)可以New一个，但生活不行。";
    } else if Contains(receiptItem, "食堂") || Contains(receiptItem, "饭") || Contains(receiptItem, "美式") {
      storyText := "咖啡是把代码转换成屎山的燃料。";
    } else if Contains(receiptItem, "高数") || Contains(receiptItem, "挂科") || Contains(receiptItem, "学") {
      storyText := "只要专业选得好，年年期末胜高考。";
    } else if Contains(receiptItem, "头发") || Contains(receiptItem, "修仙") {
      storyText := "我的发际线，是我变强的见证。";
    }
    items := [HiddenContentItem("1", Image, DefaultImage), HiddenContentItem("2", Text, storyText)];
    RulesMatch(receiptItem);
    FirstMatchRules(receiptItem);
  }

  /** The first-match rule: rule `k` decides exactly when it matches and no
      earlier rule does. */
  lemma {:induction false} FirstMatchIsFirst(name: string, rules: seq<Rule>, k: nat)
    requires k < |rules|
    ensures (Matches(name, rules[k]) && forall j :: 0 <= j < k ==> !Matches(name, rules[j]))
      ==> FirstMatch(name, rules) == Some(rules[k].story)
  {
    if k > 0 && !Matches(name, rules[0]) {
      FirstMatchIsFirst(name, rules[1..], k - 1);
      assert forall j :: 0 <= j < k - 1 ==> rules[1..][j] == rules[j + 1];
    }
  }

  /** Whatever the name, the story is a rule's story or one of `Stories`. */
  lemma {:induction false} FirstMatchStory(name: string, rules: seq<Rule>)
    ensures FirstMatch(name, rules).Some? ==>
      exists j :: 0 <= j < |rules| && Matches(name, rules[j]) && FirstMatch(name, rules).value == rules[j].story
        && forall i :: 0 <= i < j ==> !Matches(name, rules[i])
  {
    if rules != [] && !Matches(name, rules[0]) {
      FirstMatchStory(name, rules[1..]);
      if FirstMatch(name, rules).Some? {
        var j :| 0 <= j < |rules[1..]| && Matches(name, rules[1..][j]) && FirstMatch(name, rules).value == rules[1..][j].story
          && forall i :: 0 <= i < j ==> !Matches(name, rules[1..][i]);
        assert Matches(name, rules[j + 1]);
        assert forall i :: 0 <= i < j + 1 ==> !Matches(name, rules[i]) by {
          forall i | 0 <= i < j + 1 ensures !Matches(name, rules[i]) {
            if i > 0 { assert rules[i] == rules[1..][i - 1]; }
          }
        }
      }
    } else if rules != [] {
      assert Matches(name, rules[0]);
    }
  }

  lemma StoryForNoMatch(name: string, r: real)
    requires 0.0 <= r < 1.0
    requires forall j :: 0 <= j < |Rules| ==> !Matches(name, Rules[j])
    ensures StoryFor(name, r) in Stories
  {
  }

  /** Which rule matches, keyword by keyword. */
  lemma RulesMatch(name: string)
    ensures Matches(name, Rules[0]) <==> Contains(name, "Bug") || Contains(name, "代码") || Contains(name, "Java") || Contains(name, "C语言")
    ensures Matches(name, Rules[1]) <==> Contains(name, "对象") || Contains(name, "404")
    ensures Matches(name, Rules[2]) <==> Contains(name, "食堂") || Contains(name, "饭") || Contains(name, "美式")
    ensures Matches(name, Rules[3]) <==> Contains(name, "高数") || Contains(name, "挂科") || Contains(name, "学")
    ensures Matches(name, Rules[4]) <==> Contains(name, "头发") || Contains(name, "修仙")
  {
    assert Rules[0].keywords[0] == "Bug" && Rules[0].keywords[1] == "代码" && Rules[0].keywords[2] == "Java" && Rules[0].keywords[3] == "C语言";
    assert Rules[1].keywords[0] == "对象" && Rules[1].keywords[1] == "404";
    assert Rules[2].keywords[0] == "食堂" && Rules[2].keywords[1] == "饭" && Rules[2].keywords[2] == "美式";
    assert Rules[3].keywords[0] == "高数" && Rules[3].keywords[1] == "挂科" && Rules[3].keywords[2] == "学";
    assert Rules[4].keywords[0] == "头发" && Rules[4].keywords[1] == "修仙";
  }

  /** `FirstMatch` over the five rules, unrolled. */
  lemma FirstMatchRules(name: string)
    ensures FirstMatch(name, Rules) ==
      if Matches(name, Rules[0]) then Some(Rules[0].story)
      else if Matches(name, Rules[1]) then Some(Rules[1].story)
      else if Matches(name, Rules[2]) then Some(Rules[2].story)
      else if Matches(name, Rules[3]) then Some(Rules[3].story)
      else if Matches(name, Rules[4]) then Some(Rules[4].story)
      else None
  {
    var r1, r2, r3, r4 := Rules[1..], Rules[2..], Rules[3..], Rules[4..];
    assert r4[0] == Rules[4] && r4[1..] == [];
    assert FirstMatch(name, r4) == if Matches(name, Rules[4]) then Some(Rules[4].story) else None;
    assert r3[0] == Rules[3] && r3[1..] == r4;
    assert FirstMatch(name, r3) == if Matches(name, Rules[3]) then Some(Rules[3].story) else FirstMatch(name, r4);
    assert r2[0] == Rules[2] && r2[1..] == r3;
    assert FirstMatch(name, r2) == if Matches(name, Rules[2]) then Some(Rules[2].story) else FirstMatch(name, r3);
    assert r1[0] == Rules[1] && r1[1..] == r2;
    assert FirstMatch(name, r1) == if Matches(name, Rules[1]) then Some(Rules[1].story) else FirstMatch(name, r2);
  }

  /** The story of rule `k` is chosen when it is the first rule that matches. */
  lemma StoryForRule(name: string, r: real, k: nat)
    requires 0.0 <= r < 1.0 && k < |Rules|
    requires Matches(name, Rules[k]) && forall j :: 0 <= j < k ==> !Matches(name, Rules[j])
    ensures StoryFor(name, r) == Rules[k].story
  {
    FirstMatchIsFirst(name, Rules, k);
  }

  /** A rule none of whose keywords starts with a character of the name does not match. */
  lemma NoMatchByFirstChars(name: string, rule: Rule)
    requires forall k :: 0 <= k < |rule.keywords| ==> |rule.keywords[k]| > 0 && rule.keywords[k][0] !in name
    ensures !Matches(name, rule)
  {
    forall k | 0 <= k < |rule.keywords| ensures !Contains(name, rule.keywords[k]) {
      ContainsFirstChar(name, rule.keywords[k]);
    }
  }

  /** A rule matches when one of its keywords starts the name at some position. */
  lemma MatchByKeyword(name: string, rule: Rule, k: nat, pos: nat)
    requires k < |rule.keywords| && pos <= |name| && StartsWith(name[pos..], rule.keywords[k])
    ensures Matches(name, rule)
  {
    ContainsAt(name, rule.keywords[k], pos);
  }

  lemma StoryOfJava(r: real)
    requires 0.0 <= r < 1.0
    ensures StoryFor("Java大作业", r) == Rules[0].story
  {
    MatchByKeyword("Java大作业", Rules[0], 2, 0);
    StoryForRule("Java大作业", r, 0);
  }

  lemma StoryOfObject(r: real)
    requires 0.0 <= r < 1.0
    ensures StoryFor("404对象", r) == Rules[1].story
  {
    NoMatchByFirstChars("404对象", Rules[0]);
    MatchByKeyword("404对象", Rules[1], 1, 0);
    StoryForRule("404对象", r, 1);
  }

  /** "高等数学" does not contain "高数", yet reaches the fourth rule through "学". */
  lemma StoryOfMaths(r: real)
    requires 0.0 <= r < 1.0
    ensures StoryFor("高等数学", r) == Rules[3].story
  {
    var name := "高等数学";
    NoMatchByFirstChars(name, Rules[0]);
    NoMatchByFirstChars(name, Rules[1]);
    NoMatchByFirstChars(name, Rules[2]);
    MatchByKeyword(name, Rules[3], 2, 3);
    StoryForRule(name, r, 3);
  }
}

/** Reading canonical XML back: the string determines the output tree (authlab/saml/c14n.py). */
module XmlReader {
  import opened Text
  import opened XmlEscape
  import opened C14n

  datatype Result<+T> = Bad | Ok(value: T, used: nat)

  // ----- Tags -----

  /** An attribute as written: name="value". */
  datatype Item = Item(name: string, value: string)

  function NameLength(s: string): (n: nat)
    ensures n <= |s|
  {
    if s == [] || s[0] == ' ' || s[0] == '>' then 0 else 1 + NameLength(s[1..])
  }

  /** The rest of a start tag, up to and with its '>'. */
  function ReadItems(s: string): (r: Result<seq<Item>>)
    ensures r.Ok? ==> 0 < r.used <= |s|
    decreases |s|
  {
    if s == [] then Bad
    else if s[0] == '>' then Ok([], 1)
    else if s[0] != ' ' || '=' !in s[1..] then Bad
    else
      var name, rest := Before(s[1..], '='), After(s[1..], '=');
      if rest == [] || rest[0] != '"' || '"' !in rest[1..] then Bad
      else
        var raw := Before(rest[1..], '"');
        match Unescape(raw)
        case Malformed => Bad
        case Read(value) =>
          match ReadItems(After(rest[1..], '"'))
          case Bad => Bad
          case Ok(items, used) => Ok([Item(name, value)] + items, |name| + |raw| + 4 + used)
  }

  function PrefixOf(name: string): string {
    if ':' in name then Before(name, ':') else ""
  }

  function LocalOf(name: string): string {
    if ':' in name then After(name, ':') else name
  }

  predicate IsDeclaration(name: string) {
    name == "xmlns" || "xmlns:" <= name
  }

  function DeclarationIn(i: Item): seq<Declaration> {
    if IsDeclaration(i.name) then [(if i.name == "xmlns" then "" else i.name[6..], i.value)] else []
  }

  function AttributeIn(i: Item): seq<Attribute> {
    if IsDeclaration(i.name) then [] else [Attribute(PrefixOf(i.name), LocalOf(i.name), i.value)]
  }

  function DeclarationsOf(items: seq<Item>): seq<Declaration> {
    if items == [] then [] else DeclarationIn(items[0]) + DeclarationsOf(items[1..])
  }

  function AttributesOf(items: seq<Item>): seq<Attribute> {
    if items == [] then [] else AttributeIn(items[0]) + AttributesOf(items[1..])
  }

  // ----- Elements and content -----

  /** The end tag has the name of the start tag. */
  function Closed(name: string, items: seq<Item>, children: seq<OutputNode>, rest: string, used: nat): (r: Result<Output>)
    ensures r.Ok? ==> used < r.used <= used + |rest|
  {
    var end := "</" + name + ">";
    if end <= rest then
      Ok(Output(PrefixOf(name), LocalOf(name), DeclarationsOf(items), AttributesOf(items), children), used + |end|)
    else Bad
  }

  /** What follows the start tag: the content and the end tag. */
  function ReadRest(name: string, items: seq<Item>, s: string, used: nat): (r: Result<Output>)
    ensures r.Ok? ==> used < r.used <= used + |s|
    decreases |s|, 2
  {
    match ReadContent(s)
    case Bad => Bad
    case Ok(children, more) => Closed(name, items, children, s[more..], used + more)
  }

  function ReadElement(s: string): (r: Result<Output>)
    ensures r.Ok? ==> 0 < r.used <= |s|
    decreases |s|, 0
  {
    if s == [] || s[0] != '<' then Bad
    else
      var n := NameLength(s[1..]);
      match ReadItems(s[1 + n..])
      case Bad => Bad
      case Ok(items, used) => ReadRest(s[1..1 + n], items, s[1 + n + used..], 1 + n + used)
  }

  /** Position of the first "?>", or the length. */
  function InstructionLength(s: string): (n: nat)
    ensures n <= |s|
  {
    if "?>" <= s || s == [] then 0 else 1 + InstructionLength(s[1..])
  }

  function InstructionOf(body: string): OutputNode {
    if ' ' in body then OutInstruction(Before(body, ' '), After(body, ' ')) else OutInstruction(body, "")
  }

  /** Everything up to the end tag. */
  function ReadContent(s: string): (r: Result<seq<OutputNode>>)
    ensures r.Ok? ==> r.used <= |s|
    decreases |s|, 1
  {
    if s == [] then Bad
    else if s[0] != '<' then
      if '<' !in s then Bad
      else
        var raw := Before(s, '<');
        match Unescape(raw)
        case Malformed => Bad
        case Read(text) =>
          match ReadContent(s[|raw|..])
          case Bad => Bad
          case Ok(rest, used) => Ok([OutText(text)] + rest, |raw| + used)
    else if |s| < 2 then Bad
    else if s[1] == '/' then Ok([], 0)
    else if s[1] == '?' then
      var n := InstructionLength(s[2..]);
      if n + 4 > |s| then Bad
      else
        match ReadContent(s[n + 4..])
        case Bad => Bad
        case Ok(rest, used) => Ok([InstructionOf(s[2..2 + n])] + rest, n + 4 + used)
    else
      match ReadElement(s)
      case Bad => Bad
      case Ok(o, first) =>
        match ReadContent(s[first..])
        case Bad => Bad
        case Ok(rest, used) => Ok([OutChild(o)] + rest, first + used)
  }

  // ----- Trees with XML names -----

  /** A name without a colon. */
  predicate IsName(s: string) {
    s != [] && forall c :: c in s ==> c !in {' ', '>', '<', '/', '=', '"', '?', ':'}
  }

  predicate IsPrefix(s: string) {
    s == "" || IsName(s)
  }

  predicate PlainAttribute(a: Attribute) {
    IsPrefix(a.prefix) && IsName(a.local) && a.prefix != "xmlns" && !(a.prefix == "" && a.local == "xmlns")
  }

  predicate PlainNode(node: OutputNode)
    decreases node
  {
    match node
    case OutChild(o) => PlainTree(o)
    case OutText(text) => true
    case OutInstruction(name, data) => IsName(name) && InstructionLength(data) == |data|
  }

  /** The names are XML names, and no instruction contains its own end. */
  predicate PlainTree(o: Output)
    decreases o, 1
  {
    && IsPrefix(o.prefix) && IsName(o.local)
    && (forall i :: 0 <= i < |o.declarations| ==> IsPrefix(o.declarations[i].0))
    && (forall i :: 0 <= i < |o.attributes| ==> PlainAttribute(o.attributes[i]))
    && PlainNodes(o.children)
  }

  predicate PlainNodes(nodes: seq<OutputNode>)
    decreases nodes
  {
    nodes != [] ==> PlainNode(nodes[0]) && PlainNodes(nodes[1..])
  }

  /** Neighbouring texts are one text to a reader, and an empty one is none. */
  predicate Separate(nodes: seq<OutputNode>) {
    && (forall i :: 0 <= i < |nodes| && nodes[i].OutText? ==> nodes[i].text != "")
    && (forall i :: 0 <= i < |nodes| - 1 && nodes[i].OutText? ==> !nodes[i + 1].OutText?)
  }

  predicate AllSeparate(o: Output)
    decreases o, 1
  {
    Separate(o.children) && NodesSeparate(o.children)
  }

  predicate NodesSeparate(nodes: seq<OutputNode>)
    decreases nodes
  {
    nodes != [] ==> NodeSeparate(nodes[0]) && NodesSeparate(nodes[1..])
  }

  predicate NodeSeparate(node: OutputNode)
    decreases node
  {
    node.OutChild? ==> AllSeparate(node.o)
  }

  lemma Associate<T>(a: seq<T>, b: seq<T>, c: seq<T>)
    ensures a + (b + c) == a + b + c
  {
  }

  // ----- Start tags read back -----

  function ItemText(i: Item): string {
    " " + i.name + "=\"" + EscapeAttribute(i.value) + "\""
  }

  function ItemsText(items: seq<Item>): string {
    if items == [] then "" else ItemText(items[0]) + ItemsText(items[1..])
  }

  predicate PlainItem(i: Item) {
    '=' !in i.name
  }

  lemma ItemsTextStep(items: seq<Item>)
    requires items != []
    ensures ItemsText(items) == ItemText(items[0]) + ItemsText(items[1..])
  {
  }

  lemma NoItemsRead(suffix: string)
    ensures ReadItems(ItemsText([]) + (">" + suffix)) == Ok([], 1)
  {
    assert ItemsText([]) + (">" + suffix) == ">" + suffix;
  }

  lemma {:induction false} ItemsRead(items: seq<Item>, suffix: string)
    requires forall i :: 0 <= i < |items| ==> PlainItem(items[i])
    ensures ReadItems(ItemsText(items) + (">" + suffix)) == Ok(items, |ItemsText(items)| + 1)
  {
    hide *;
    if items == [] {
      NoItemsRead(suffix);
      assert |ItemsText([])| == 0 by {
        NoItemsText();
      }
    } else {
      ItemsRead(items[1..], suffix);
      ItemRead(items[0], ItemsText(items[1..]) + (">" + suffix));
      ItemsTextStep(items);
      Associate(ItemText(items[0]), ItemsText(items[1..]), ">" + suffix);
      assert items == [items[0]] + items[1..];
    }
  }

  lemma NoItemsText()
    ensures ItemsText([]) == []
  {
  }

  lemma ItemRead(i: Item, rest: string)
    requires PlainItem(i)
    ensures var r := ReadItems(rest);
      ReadItems(ItemText(i) + rest) == if r.Bad? then Bad else Ok([i] + r.value, |ItemText(i)| + r.used)
  {
    hide EscapeAttribute, Unescape, Before, After;
    var raw := EscapeAttribute(i.value);
    AttributeRoundTrip(i.value);
    var s := ItemText(i) + rest;
    var afterName := "\"" + raw + ("\"" + rest);
    assert s[1..] == i.name + ['='] + afterName;
    SplitJoined(i.name, '=', afterName);
    assert afterName[1..] == raw + ['"'] + rest;
    SplitJoined(raw, '"', rest);
  }

  function DeclarationItem(d: Declaration): Item {
    Item(if d.0 == "" then "xmlns" else "xmlns:" + d.0, d.1)
  }

  function AttributeItem(a: Attribute): Item {
    Item(Tag(a.prefix, a.local), a.value)
  }

  function DeclarationItems(ds: seq<Declaration>): seq<Item> {
    if ds == [] then [] else [DeclarationItem(ds[0])] + DeclarationItems(ds[1..])
  }

  function AttributeItems(xs: seq<Attribute>): seq<Item> {
    if xs == [] then [] else [AttributeItem(xs[0])] + AttributeItems(xs[1..])
  }

  function ItemsOf(o: Output): seq<Item> {
    DeclarationItems(o.declarations) + AttributeItems(o.attributes)
  }

  lemma {:induction false} DeclarationItemAt(ds: seq<Declaration>, k: nat)
    requires k < |ds|
    ensures |DeclarationItems(ds)| == |ds| && DeclarationItems(ds)[k] == DeclarationItem(ds[k])
  {
    hide DeclarationItem;
    if |ds| > 1 {
      DeclarationItemAt(ds[1..], if k > 0 then k - 1 else 0);
    }
  }

  lemma {:induction false} AttributeItemAt(xs: seq<Attribute>, k: nat)
    requires k < |xs|
    ensures |AttributeItems(xs)| == |xs| && AttributeItems(xs)[k] == AttributeItem(xs[k])
  {
    hide AttributeItem;
    if |xs| > 1 {
      AttributeItemAt(xs[1..], if k > 0 then k - 1 else 0);
    }
  }

  lemma {:induction false} ItemsTextConcat(a: seq<Item>, b: seq<Item>)
    ensures ItemsText(a + b) == ItemsText(a) + ItemsText(b)
  {
    if a == [] {
      assert a + b == b;
    } else {
      ItemsTextConcat(a[1..], b);
      assert (a + b)[1..] == a[1..] + b;
      ItemsTextStep(a);
      ItemsTextStep(a + b);
      hide *;
      Associate(ItemText(a[0]), ItemsText(a[1..]), ItemsText(b));
    }
  }

  lemma {:induction false} JoinedItems<T>(xs: seq<T>, f: T -> string, items: seq<Item>)
    requires |items| == |xs| && forall i :: 0 <= i < |xs| ==> f(xs[i]) == ItemText(items[i])
    ensures Joined(xs, f) == ItemsText(items)
    decreases |xs|
  {
    hide ItemText;
    if xs != [] {
      var n := |xs| - 1;
      JoinedItems(xs[..n], f, items[..n]);
      ItemsTextConcat(items[..n], [items[n]]);
      assert items == items[..n] + [items[n]];
      assert [items[n]][1..] == [];
    }
  }

  lemma ItemsAreWritten(o: Output)
    ensures Joined(o.declarations, DeclarationText) + Joined(o.attributes, AttributeText) == ItemsText(ItemsOf(o))
  {
    var ds, xs := DeclarationItems(o.declarations), AttributeItems(o.attributes);
    hide Joined, ItemsText, DeclarationText, AttributeText, ItemText, DeclarationItem, AttributeItem;
    forall i | 0 <= i < |o.declarations|
      ensures |ds| == |o.declarations| && DeclarationText(o.declarations[i]) == ItemText(ds[i])
    {
      DeclarationItemAt(o.declarations, i);
      DeclarationIsItem(o.declarations[i]);
    }
    forall i | 0 <= i < |o.attributes|
      ensures |xs| == |o.attributes| && AttributeText(o.attributes[i]) == ItemText(xs[i])
    {
      AttributeItemAt(o.attributes, i);
      AttributeIsItem(o.attributes[i]);
    }
    JoinedItems(o.declarations, DeclarationText, ds);
    JoinedItems(o.attributes, AttributeText, xs);
    ItemsTextConcat(ds, xs);
  }

  lemma DeclarationIsItem(d: Declaration)
    ensures DeclarationText(d) == ItemText(DeclarationItem(d))
  {
    hide EscapeAttribute;
  }

  lemma AttributeIsItem(a: Attribute)
    ensures AttributeText(a) == ItemText(AttributeItem(a))
  {
    hide EscapeAttribute, Tag;
  }

  lemma DeclarationName(d: Declaration)
    requires IsPrefix(d.0)
    ensures var i := DeclarationItem(d); '=' !in i.name && DeclarationIn(i) == [d] && AttributeIn(i) == []
  {
    assert |"xmlns"| == 5 && |"xmlns:"| == 6;
  }

  lemma TagReads(prefix: string, local: string)
    requires IsPrefix(prefix) && IsName(local)
    ensures PrefixOf(Tag(prefix, local)) == prefix && LocalOf(Tag(prefix, local)) == local
    ensures forall c :: c in Tag(prefix, local) ==> c !in {' ', '>', '<', '/', '=', '"', '?'}
    ensures Tag(prefix, local) != []
  {
    if prefix != "" {
      assert ':' !in prefix;
      SplitJoined(prefix, ':', local);
      assert prefix + [':'] + local == prefix + ":" + local;
    } else {
      assert ':' !in local;
    }
  }

  lemma DeclarationPrefix(name: string)
    requires IsDeclaration(name)
    ensures PrefixOf(name) == "xmlns" || (PrefixOf(name) == "" && LocalOf(name) == "xmlns")
  {
    assert ':' !in "xmlns";
    if name != "xmlns" {
      assert name == "xmlns" + [':'] + name[6..];
      SplitJoined("xmlns", ':', name[6..]);
    }
  }

  lemma NotDeclaration(prefix: string, local: string)
    requires IsPrefix(prefix) && IsName(local) && prefix != "xmlns" && !(prefix == "" && local == "xmlns")
    ensures !IsDeclaration(Tag(prefix, local))
  {
    hide Tag, PrefixOf, LocalOf, IsDeclaration;
    TagReads(prefix, local);
    if IsDeclaration(Tag(prefix, local)) {
      DeclarationPrefix(Tag(prefix, local));
    }
  }

  lemma AttributeName(a: Attribute)
    requires PlainAttribute(a)
    ensures var i := AttributeItem(a); '=' !in i.name && DeclarationIn(i) == [] && AttributeIn(i) == [a]
  {
    hide Tag, IsDeclaration, PrefixOf, LocalOf;
    TagReads(a.prefix, a.local);
    NotDeclaration(a.prefix, a.local);
  }

  lemma {:induction false} ItemsOfConcat(a: seq<Item>, b: seq<Item>)
    ensures DeclarationsOf(a + b) == DeclarationsOf(a) + DeclarationsOf(b)
    ensures AttributesOf(a + b) == AttributesOf(a) + AttributesOf(b)
  {
    hide DeclarationIn, AttributeIn;
    if a == [] {
      assert a + b == b;
    } else {
      ItemsOfConcat(a[1..], b);
      assert (a + b)[1..] == a[1..] + b;
      Associate(DeclarationIn(a[0]), DeclarationsOf(a[1..]), DeclarationsOf(b));
      Associate(AttributeIn(a[0]), AttributesOf(a[1..]), AttributesOf(b));
    }
  }

  lemma {:induction false} DeclarationsBack(ds: seq<Declaration>)
    requires forall i :: 0 <= i < |ds| ==> IsPrefix(ds[i].0)
    ensures DeclarationsOf(DeclarationItems(ds)) == ds && AttributesOf(DeclarationItems(ds)) == []
    ensures forall i :: 0 <= i < |DeclarationItems(ds)| ==> PlainItem(DeclarationItems(ds)[i])
  {
    if ds != [] {
      DeclarationsBack(ds[1..]);
      DeclarationName(ds[0]);
      hide DeclarationItem, DeclarationIn, AttributeIn;
      assert DeclarationItems(ds)[1..] == DeclarationItems(ds[1..]);
      assert ds == [ds[0]] + ds[1..];
    }
  }

  lemma {:induction false} AttributesBack(xs: seq<Attribute>)
    requires forall i :: 0 <= i < |xs| ==> PlainAttribute(xs[i])
    ensures DeclarationsOf(AttributeItems(xs)) == [] && AttributesOf(AttributeItems(xs)) == xs
    ensures forall i :: 0 <= i < |AttributeItems(xs)| ==> PlainItem(AttributeItems(xs)[i])
  {
    if xs != [] {
      AttributesBack(xs[1..]);
      AttributeName(xs[0]);
      hide AttributeItem, DeclarationIn, AttributeIn, PlainAttribute;
      assert AttributeItems(xs)[1..] == AttributeItems(xs[1..]);
      assert xs == [xs[0]] + xs[1..];
    }
  }

  lemma ItemsBack(o: Output)
    requires forall i :: 0 <= i < |o.declarations| ==> IsPrefix(o.declarations[i].0)
    requires forall i :: 0 <= i < |o.attributes| ==> PlainAttribute(o.attributes[i])
    ensures DeclarationsOf(ItemsOf(o)) == o.declarations && AttributesOf(ItemsOf(o)) == o.attributes
    ensures forall i :: 0 <= i < |ItemsOf(o)| ==> PlainItem(ItemsOf(o)[i])
  {
    hide DeclarationItems, AttributeItems, DeclarationsOf, AttributesOf, PlainItem, PlainAttribute, IsPrefix;
    DeclarationsBack(o.declarations);
    AttributesBack(o.attributes);
    ItemsOfConcat(DeclarationItems(o.declarations), AttributeItems(o.attributes));
    AppendNothing(o.declarations, o.attributes);
  }

  lemma AppendNothing(ds: seq<Declaration>, xs: seq<Attribute>)
    ensures ds + [] == ds && [] + xs == xs
  {
  }

  lemma {:induction false} NameStops(name: string, rest: string)
    requires ' ' !in name && '>' !in name && rest != [] && (rest[0] == ' ' || rest[0] == '>')
    ensures NameLength(name + rest) == |name|
  {
    if name == [] {
      assert name + rest == rest;
    } else {
      NameStops(name[1..], rest);
      assert (name + rest)[1..] == name[1..] + rest;
    }
  }

  // ----- Content reads back -----

  lemma {:induction false} InstructionStops(body: string, rest: string)
    requires InstructionLength(body) == |body|
    ensures InstructionLength(body + ("?>" + rest)) == |body|
  {
    var s := body + ("?>" + rest);
    if body == [] {
      assert s == "?>" + rest;
    } else {
      InstructionStops(body[1..], rest);
      assert s[1..] == body[1..] + ("?>" + rest);
      assert !("?>" <= s) by {
        assert s[0] == body[0] && s[1] == if |body| > 1 then body[1] else '?';
      }
    }
  }

  lemma {:induction false} InstructionSkips(a: string, b: string)
    requires '?' !in a
    ensures InstructionLength(a + b) == |a| + InstructionLength(b)
  {
    if a == [] {
      assert a + b == b;
    } else {
      InstructionSkips(a[1..], b);
      assert (a + b)[1..] == a[1..] + b;
      assert (a + b)[0] == a[0];
    }
  }

  function BodyOf(name: string, data: string): string {
    name + if data == "" then "" else " " + data
  }

  lemma BodyReads(name: string, data: string)
    requires IsName(name) && InstructionLength(data) == |data|
    ensures InstructionLength(BodyOf(name, data)) == |BodyOf(name, data)| && InstructionOf(BodyOf(name, data)) == OutInstruction(name, data)
  {
    if data == "" {
      assert BodyOf(name, data) == name == name + [];
      InstructionSkips(name, []);
      assert ' ' !in name;
    } else {
      InstructionSkips(name + " ", data);
      Associate(name, " ", data);
      assert ' ' !in name;
      SplitJoined(name, ' ', data);
      assert name + [' '] + data == BodyOf(name, data);
    }
  }

  lemma InstructionPieces(body: string, rest: string)
    ensures var s := "<?" + body + "?>" + rest;
      && |s| == |body| + 4 + |rest| && s[0] == '<' && s[1] == '?'
      && s[2..] == body + ("?>" + rest) && s[2..2 + |body|] == body && s[|body| + 4..] == rest
  {
    var s := "<?" + body + "?>" + rest;
    assert s == "<?" + (body + ("?>" + rest)) == ("<?" + body + "?>") + rest;
  }

  lemma InstructionSteps(s: string, n: nat, node: OutputNode)
    requires n + 4 <= |s| && s[0] == '<' && s[1] == '?' && InstructionLength(s[2..]) == n && InstructionOf(s[2..2 + n]) == node
    ensures ReadContent(s) == Follows(node, n + 4, ReadContent(s[n + 4..]))
  {
    hide InstructionLength, InstructionOf;
  }

  lemma InstructionText(name: string, data: string)
    ensures SerializeNode(OutInstruction(name, data)) == "<?" + BodyOf(name, data) + "?>"
  {
    Associate("<?", name, if data == "" then "" else " " + data);
  }

  lemma InstructionReads(name: string, data: string, rest: string)
    requires IsName(name) && InstructionLength(data) == |data|
    ensures var s := SerializeNode(OutInstruction(name, data)) + rest;
      ReadContent(s) == Follows(OutInstruction(name, data), |SerializeNode(OutInstruction(name, data))|, ReadContent(rest))
  {
    hide *;
    var body := BodyOf(name, data);
    InstructionText(name, data);
    BodyReads(name, data);
    InstructionStops(body, rest);
    InstructionPieces(body, rest);
    InstructionSteps("<?" + body + "?>" + rest, |body|, OutInstruction(name, data));
  }

  /** What one more node in front makes of a reading. */
  function Follows(node: OutputNode, length: nat, r: Result<seq<OutputNode>>): Result<seq<OutputNode>> {
    if r.Bad? then Bad else Ok([node] + r.value, length + r.used)
  }

  lemma TextReads(text: string, rest: string)
    requires text != "" && rest != [] && rest[0] == '<'
    ensures ReadContent(EscapeText(text) + rest) == Follows(OutText(text), |EscapeText(text)|, ReadContent(rest))
  {
    hide EscapeText, Unescape, Before, After;
    TextRoundTrip(text);
    TextNotEmpty(text);
    var raw := EscapeText(text);
    var s := raw + rest;
    assert s == raw + ['<'] + rest[1..];
    SplitJoined(raw, '<', rest[1..]);
    assert s[0] == raw[0] && s[|raw|..] == rest;
    assert raw[0] in raw;
  }

  lemma TextNotEmpty(text: string)
    requires text != ""
    ensures EscapeText(text) != []
  {
    TextIsSpread(text);
  }

  lemma ChildReads(o: Output, rest: string)
    requires IsPrefix(o.prefix) && IsName(o.local)
    requires ReadElement(Serialize(o) + rest) == Ok(o, |Serialize(o)|)
    ensures ReadContent(Serialize(o) + rest) == Follows(OutChild(o), |Serialize(o)|, ReadContent(rest))
  {
    var text := Serialize(o);
    var s := text + rest;
    TagReads(o.prefix, o.local);
    SerializeShape(o);
    var tag := Tag(o.prefix, o.local);
    assert tag[0] in tag && s[0] == '<' && s[1] == text[1] == tag[0];
    assert s[|text|..] == rest;
    hide Serialize, ReadElement, Tag;
  }

  lemma SerializeShape(o: Output)
    ensures Serialize(o) == "<" + Tag(o.prefix, o.local) + (ItemsText(ItemsOf(o)) + (">" + (SerializeNodes(o.children) + ("</" + Tag(o.prefix, o.local) + ">"))))
    ensures Tag(o.prefix, o.local) != [] ==> |Serialize(o)| > 1 && Serialize(o)[0] == '<' && Serialize(o)[1] == Tag(o.prefix, o.local)[0]
  {
    hide Tag, Joined, SerializeNodes, ItemsText, ItemsOf, DeclarationText, AttributeText;
    ItemsAreWritten(o);
    Reassociate("<" + Tag(o.prefix, o.local), Joined(o.declarations, DeclarationText), Joined(o.attributes, AttributeText), ">",
                SerializeNodes(o.children), "</", Tag(o.prefix, o.local), ">");
  }

  lemma Reassociate(a: string, b: string, c: string, d: string, e: string, f: string, g: string, h: string)
    ensures a + b + c + d + e + f + g + h == a + ((b + c) + (d + (e + (f + g + h))))
  {
  }

  /** The pieces of an element that a reader comes across one after the other. */
  lemma ElementPieces(tag: string, items: string, content: string, suffix: string)
    requires ' ' !in tag && '>' !in tag && (items != [] ==> items[0] == ' ')
    ensures var end := "</" + tag + ">";
      var s := "<" + tag + (items + (">" + (content + end))) + suffix;
      && s != [] && s[0] == '<' && NameLength(s[1..]) == |tag| && s[1..1 + |tag|] == tag
      && s[1 + |tag|..] == items + (">" + (content + (end + suffix)))
      && s[1 + |tag| + (|items| + 1)..] == content + (end + suffix)
      && s[1 + |tag| + (|items| + 1) + |content|..] == end + suffix
      && |s| == 1 + |tag| + |items| + 1 + |content| + |end| + |suffix|
  {
    var end := "</" + tag + ">";
    var s := "<" + tag + (items + (">" + (content + end))) + suffix;
    var rest := items + (">" + (content + (end + suffix)));
    assert s == ("<" + tag) + rest;
    assert s[1..] == tag + rest;
    assert rest[0] == if items == [] then '>' else items[0];
    NameStops(tag, rest);
  }

  lemma ItemsOpen(items: seq<Item>)
    ensures ItemsText(items) != [] ==> ItemsText(items)[0] == ' '
  {
  }

  /** Reading an element's string gives the element and stops at its end. */
  lemma {:induction false} ElementReads(o: Output, suffix: string)
    requires PlainTree(o) && AllSeparate(o)
    ensures ReadElement(Serialize(o) + suffix) == Ok(o, |Serialize(o)|)
    decreases o, 1
  {
    hide *;
    var tag, items, content := Tag(o.prefix, o.local), ItemsText(ItemsOf(o)), SerializeNodes(o.children);
    PlainParts(o);
    SerializeShape(o);
    TagReads(o.prefix, o.local);
    ItemsOpen(ItemsOf(o));
    ItemsBack(o);
    var end := "</" + tag + ">";
    assert end[0] == '<' && end[1] == '/';
    ElementPieces(tag, items, content, suffix);
    ItemsRead(ItemsOf(o), content + (end + suffix));
    ContentReads(o.children, end + suffix);
    ElementSteps(Serialize(o) + suffix, tag, ItemsOf(o), |items| + 1);
    RestSteps(tag, ItemsOf(o), content + (end + suffix), 1 + |tag| + (|items| + 1), o.children, |content|);
    assert (content + (end + suffix))[|content|..] == end + suffix;
    ElementCloses(o, tag, suffix, 1 + |tag| + (|items| + 1) + |content|);
  }

  lemma PlainParts(o: Output)
    requires PlainTree(o) && AllSeparate(o)
    ensures IsPrefix(o.prefix) && IsName(o.local) && PlainNodes(o.children) && Separate(o.children) && NodesSeparate(o.children)
    ensures forall i :: 0 <= i < |o.declarations| ==> IsPrefix(o.declarations[i].0)
    ensures forall i :: 0 <= i < |o.attributes| ==> PlainAttribute(o.attributes[i])
  {
  }

  lemma ElementSteps(s: string, tag: string, items: seq<Item>, length: nat)
    requires s != [] && s[0] == '<' && NameLength(s[1..]) == |tag| && s[1..1 + |tag|] == tag
    requires 1 + |tag| + length <= |s| && ReadItems(s[1 + |tag|..]) == Ok(items, length)
    ensures ReadElement(s) == ReadRest(tag, items, s[1 + |tag| + length..], 1 + |tag| + length)
  {
    hide ReadItems, ReadRest, NameLength;
  }

  lemma RestSteps(tag: string, items: seq<Item>, s: string, used: nat, children: seq<OutputNode>, content: nat)
    requires content <= |s| && ReadContent(s) == Ok(children, content)
    ensures ReadRest(tag, items, s, used) == Closed(tag, items, children, s[content..], used + content)
  {
    hide ReadContent, Closed;
  }

  lemma ElementCloses(o: Output, tag: string, suffix: string, used: nat)
    requires PrefixOf(tag) == o.prefix && LocalOf(tag) == o.local
    requires DeclarationsOf(ItemsOf(o)) == o.declarations && AttributesOf(ItemsOf(o)) == o.attributes
    ensures Closed(tag, ItemsOf(o), o.children, "</" + tag + ">" + suffix, used) == Ok(o, used + |tag| + 3)
  {
    hide PrefixOf, LocalOf, DeclarationsOf, AttributesOf, ItemsOf;
  }

  lemma TagFollows(nodes: seq<OutputNode>, suffix: string)
    requires suffix != [] && suffix[0] == '<' && (nodes != [] ==> !nodes[0].OutText?)
    ensures var s := SerializeNodes(nodes) + suffix; s != [] && s[0] == '<'
  {
    if nodes == [] {
      assert SerializeNodes(nodes) + suffix == suffix;
    } else if nodes[0].OutChild? {
      hide SerializeNodes;
      NodesStep(nodes);
      StartsTag(nodes[0].o);
    } else {
      hide SerializeNodes;
      NodesStep(nodes);
    }
  }

  lemma StartsTag(o: Output)
    ensures Serialize(o) != [] && Serialize(o)[0] == '<'
  {
    hide Tag, Joined, SerializeNodes;
  }

  lemma NodesStep(nodes: seq<OutputNode>)
    requires nodes != []
    ensures SerializeNodes(nodes) == SerializeNode(nodes[0]) + SerializeNodes(nodes[1..])
  {
  }

  lemma SeparateRest(nodes: seq<OutputNode>)
    requires nodes != [] && Separate(nodes)
    ensures Separate(nodes[1..]) && (nodes[0].OutText? ==> nodes[0].text != "" && (nodes[1..] != [] ==> !nodes[1..][0].OutText?))
  {
    var rest := nodes[1..];
    forall i | 0 <= i < |rest| && rest[i].OutText?
      ensures rest[i].text != ""
    {
      assert nodes[i + 1] == rest[i];
    }
    forall i | 0 <= i < |rest| - 1 && rest[i].OutText?
      ensures !rest[i + 1].OutText?
    {
      assert nodes[i + 1] == rest[i] && nodes[i + 1 + 1] == rest[i + 1];
    }
    assert nodes[0].OutText? && rest != [] ==> !nodes[0 + 1].OutText?;
  }

  lemma NothingRead(suffix: string)
    requires |suffix| >= 2 && suffix[0] == '<' && suffix[1] == '/'
    ensures ReadContent(SerializeNodes([]) + suffix) == Ok([], 0) && |SerializeNodes([])| == 0
  {
    assert SerializeNodes([]) + suffix == suffix;
  }

  /** Reading the children stops at the end tag. */
  lemma {:induction false} ContentReads(nodes: seq<OutputNode>, suffix: string)
    requires PlainNodes(nodes) && Separate(nodes) && NodesSeparate(nodes)
    requires |suffix| >= 2 && suffix[0] == '<' && suffix[1] == '/'
    ensures ReadContent(SerializeNodes(nodes) + suffix) == Ok(nodes, |SerializeNodes(nodes)|)
    decreases nodes
  {
    hide ReadContent, ReadElement, SerializeNodes, Serialize, EscapeText, Separate, InstructionLength, AllSeparate, PlainTree;
    if nodes == [] {
      NothingRead(suffix);
    } else {
      var rest := SerializeNodes(nodes[1..]) + suffix;
      SeparateRest(nodes);
      ContentReads(nodes[1..], suffix);
      NodesStep(nodes);
      Associate(SerializeNode(nodes[0]), SerializeNodes(nodes[1..]), suffix);
      assert nodes == [nodes[0]] + nodes[1..];
      if nodes[0].OutText? {
        TagFollows(nodes[1..], suffix);
      }
      NodeReads(nodes[0], rest);
    }
  }

  lemma {:induction false} NodeReads(node: OutputNode, rest: string)
    requires PlainNode(node) && NodeSeparate(node) && (node.OutText? ==> node.text != "" && rest != [] && rest[0] == '<')
    ensures ReadContent(SerializeNode(node) + rest) == Follows(node, |SerializeNode(node)|, ReadContent(rest))
    decreases node
  {
    hide ReadContent, ReadElement, Serialize, EscapeText, InstructionLength, AllSeparate, PlainTree, Follows;
    match node
    case OutText(text) => TextReads(text, rest);
    case OutChild(o) =>
      ElementReads(o, rest);
      PlainParts(o);
      ChildReads(o, rest);
    case OutInstruction(name, data) => InstructionReads(name, data, rest);
  }

  // ----- Texts side by side -----

  /** A text in front: nothing if it is empty, one with the next text if there is one. */
  function Glue(node: OutputNode, nodes: seq<OutputNode>): seq<OutputNode> {
    if !node.OutText? then [node] + nodes
    else if node.text == "" then nodes
    else if nodes != [] && nodes[0].OutText? then [OutText(node.text + nodes[0].text)] + nodes[1..]
    else [node] + nodes
  }

  /** The tree as a reader sees it. */
  function Merged(o: Output): Output
    decreases o, 1
  {
    Output(o.prefix, o.local, o.declarations, o.attributes, MergedNodes(o.children))
  }

  function MergedNodes(nodes: seq<OutputNode>): seq<OutputNode>
    decreases nodes
  {
    if nodes == [] then [] else Glue(MergedNode(nodes[0]), MergedNodes(nodes[1..]))
  }

  function MergedNode(node: OutputNode): OutputNode
    decreases node
  {
    if node.OutChild? then OutChild(Merged(node.o)) else node
  }

  lemma EscapeConcat(a: string, b: string)
    ensures EscapeText(a + b) == EscapeText(a) + EscapeText(b)
  {
    var a1, b1 := Replace(a, '&', "&amp;"), Replace(b, '&', "&amp;");
    var a2, b2 := Replace(a1, '<', "&lt;"), Replace(b1, '<', "&lt;");
    var a3, b3 := Replace(a2, '>', "&gt;"), Replace(b2, '>', "&gt;");
    hide Replace;
    ReplaceConcat(a, b, '&', "&amp;");
    ReplaceConcat(a1, b1, '<', "&lt;");
    ReplaceConcat(a2, b2, '>', "&gt;");
    ReplaceConcat(a3, b3, '\r', "&#xD;");
  }

  lemma EscapeNothing()
    ensures EscapeText("") == ""
  {
  }

  lemma GlueWrites(node: OutputNode, nodes: seq<OutputNode>)
    ensures SerializeNodes(Glue(node, nodes)) == SerializeNode(node) + SerializeNodes(nodes)
  {
    hide Serialize, EscapeText;
    if node.OutText? && node.text == "" {
      EscapeNothing();
    } else if node.OutText? && nodes != [] && nodes[0].OutText? {
      EscapeConcat(node.text, nodes[0].text);
      Associate(EscapeText(node.text), EscapeText(nodes[0].text), SerializeNodes(nodes[1..]));
      assert Glue(node, nodes)[1..] == nodes[1..];
    } else {
      assert ([node] + nodes)[1..] == nodes;
    }
  }

  lemma {:induction false} MergedWrites(nodes: seq<OutputNode>)
    ensures SerializeNodes(MergedNodes(nodes)) == SerializeNodes(nodes)
    decreases nodes
  {
    if nodes != [] {
      hide Serialize, Glue, SerializeNode;
      MergedWrites(nodes[1..]);
      NodeWrites(nodes[0]);
      GlueWrites(MergedNode(nodes[0]), MergedNodes(nodes[1..]));
    }
  }

  lemma {:induction false} NodeWrites(node: OutputNode)
    ensures SerializeNode(MergedNode(node)) == SerializeNode(node)
    decreases node
  {
    if node.OutChild? {
      hide SerializeNodes, MergedNodes, Joined;
      MergedWrites(node.o.children);
    }
  }

  lemma GlueKeeps(node: OutputNode, nodes: seq<OutputNode>)
    requires Separate(nodes) && NodesSeparate(nodes) && PlainNodes(nodes) && NodeSeparate(node) && PlainNode(node)
    ensures Separate(Glue(node, nodes)) && NodesSeparate(Glue(node, nodes)) && PlainNodes(Glue(node, nodes))
  {
    hide AllSeparate, PlainTree;
    var r := Glue(node, nodes);
    if node.OutText? && node.text != "" && nodes != [] && nodes[0].OutText? {
      assert r[1..] == nodes[1..];
      forall i | 0 <= i < |r| - 1 && r[i].OutText?
        ensures !r[i + 1].OutText?
      {
        assert nodes[i].OutText? && r[i + 1] == nodes[i + 1];
      }
    } else if !(node.OutText? && node.text == "") {
      assert r[1..] == nodes;
      forall i | 0 <= i < |r| - 1 && r[i].OutText?
        ensures !r[i + 1].OutText?
      {
        if i > 0 {
          assert nodes[i - 1] == r[i] && nodes[i - 1 + 1] == r[i + 1];
        }
      }
    }
  }

  lemma {:induction false} MergedIsSeparate(nodes: seq<OutputNode>)
    requires PlainNodes(nodes)
    ensures Separate(MergedNodes(nodes)) && NodesSeparate(MergedNodes(nodes)) && PlainNodes(MergedNodes(nodes))
    decreases nodes
  {
    if nodes != [] {
      hide Separate, PlainNode, NodeSeparate, Glue;
      MergedIsSeparate(nodes[1..]);
      MergedNodeIsSeparate(nodes[0]);
      GlueKeeps(MergedNode(nodes[0]), MergedNodes(nodes[1..]));
    }
  }

  lemma {:induction false} MergedNodeIsSeparate(node: OutputNode)
    requires PlainNode(node)
    ensures PlainNode(MergedNode(node)) && NodeSeparate(MergedNode(node))
    decreases node
  {
    if node.OutChild? {
      hide Separate, MergedNodes, PlainNodes, NodesSeparate;
      MergedIsSeparate(node.o.children);
    }
  }

  /**
   The string determines the tree: a reader that resolves references and matches tags gets back every name,
   declaration, attribute, instruction and text, neighbouring texts as one.
   */
  lemma StringDeterminesTree(o: Output, suffix: string)
    requires PlainTree(o)
    ensures ReadElement(Serialize(o) + suffix) == Ok(Merged(o), |Serialize(o)|)
  {
    MergedIsSeparate(o.children);
    MergedWrites(o.children);
    assert PlainTree(Merged(o)) && AllSeparate(Merged(o));
    assert Serialize(Merged(o)) == Serialize(o) by {
      hide SerializeNodes, MergedNodes, Joined;
    }
    hide *;
    ElementReads(Merged(o), suffix);
  }

  // ----- Whole calls -----

  predicate PlainInputNode(node: Node)
    decreases node
  {
    match node
    case Child(e) => e.excluded || PlainElement(e)
    case Instruction(name, data) => IsName(name) && InstructionLength(data) == |data|
    case _ => true
  }

  predicate PlainInput(nodes: seq<Node>)
    decreases nodes
  {
    nodes != [] ==> PlainInputNode(nodes[0]) && PlainInput(nodes[1..])
  }

  /** What an XML parser delivers: names are XML names, and no instruction contains its own end. */
  predicate PlainElement(e: Element)
    decreases e, 1
  {
    && IsPrefix(e.prefix) && IsName(e.local)
    && (forall a :: a in e.attributes ==> PlainAttribute(a))
    && PlainInput(e.children)
  }

  predicate PlainOptions(opt: Options) {
    forall p :: p in opt.inclusive ==> IsPrefix(p)
  }

  lemma {:induction false} RenderIsPlain(opt: Options, e: Element, inherited: Namespaces, rendered: Namespaces)
    requires PlainOptions(opt) && PlainElement(e) && Render(opt, e, inherited, rendered).Rendered?
    ensures PlainTree(Render(opt, e, inherited, rendered).value)
    decreases e, 1
  {
    hide DeclarationsFor, SortAttributes, RenderChildren, Achieves, IsName, PlainAttribute, PlainInput, PlainNodes;
    var inScope := InScope(e, inherited);
    var d := DeclarationsFor(opt, e, inScope, rendered);
    DeclaredPrefixes(opt, e, inScope, rendered);
    SortKeepsMeaning(inScope, inScope, e.attributes);
    ChildrenArePlain(opt, e.children, inScope, d.rendered);
    var o := Render(opt, e, inherited, rendered).value;
    forall i | 0 <= i < |o.attributes|
      ensures PlainAttribute(o.attributes[i])
    {
      assert o.attributes[i] in SortAttributes(inScope, e.attributes);
    }
  }

  lemma DeclaredPrefixes(opt: Options, e: Element, inScope: Namespaces, rendered: Namespaces)
    requires PlainOptions(opt) && PlainElement(e) && DeclarationsFor(opt, e, inScope, rendered).Declaring?
    ensures var d := DeclarationsFor(opt, e, inScope, rendered);
      forall i :: 0 <= i < |d.declarations| ==> IsPrefix(d.declarations[i].0)
  {
    hide Settled, Untouched, SaysSomething, IsName, PlainInput;
    var d := DeclarationsFor(opt, e, inScope, rendered);
    DeclarationsResolve(opt, e, inScope, rendered);
    hide DeclarationsFor;
    forall i | 0 <= i < |d.declarations|
      ensures IsPrefix(d.declarations[i].0)
    {
      var p := d.declarations[i].0;
      assert p in Visible(e) + opt.inclusive;
      if p !in opt.inclusive && p != e.prefix {
        var a :| a in e.attributes && a.prefix == p;
        assert PlainAttribute(a);
      }
    }
  }

  lemma {:induction false} ChildrenArePlain(opt: Options, nodes: seq<Node>, inScope: Namespaces, rendered: Namespaces)
    requires PlainOptions(opt) && PlainInput(nodes) && RenderChildren(opt, nodes, inScope, rendered).Rendered?
    ensures PlainNodes(RenderChildren(opt, nodes, inScope, rendered).value)
    decreases nodes
  {
    if nodes != [] {
      hide PlainNode, PlainInputNode, Render, PlainOptions;
      ChildrenArePlain(opt, nodes[1..], inScope, rendered);
      NodeIsPlain(opt, nodes[0], inScope, rendered);
      var first := RenderNode(opt, nodes[0], inScope, rendered).value;
      var rest := RenderChildren(opt, nodes[1..], inScope, rendered).value;
      if first == [] {
        assert first + rest == rest;
      } else {
        assert (first + rest)[1..] == rest;
      }
    }
  }

  lemma {:induction false} NodeIsPlain(opt: Options, node: Node, inScope: Namespaces, rendered: Namespaces)
    requires PlainOptions(opt) && PlainInputNode(node) && RenderNode(opt, node, inScope, rendered).Rendered?
    ensures var out := RenderNode(opt, node, inScope, rendered).value; |out| <= 1 && (out != [] ==> PlainNode(out[0]))
    decreases node
  {
    hide Render, IsName, InstructionLength;
    if node.Child? && !node.e.excluded {
      RenderIsPlain(opt, node.e, inScope, rendered);
    }
  }

  /** Reading the canonical string gives the output tree, whose names mean what they mean in the input. */
  lemma CanonicalStringReads(opt: Options, e: Element, context: Namespaces)
    requires PlainOptions(opt) && PlainElement(e) && Canonicalize(opt, e, context).Rendered?
    ensures var text := SerializeRendering(Canonicalize(opt, e, context)).value;
      ReadElement(text) == Ok(Merged(Canonicalize(opt, e, context).value), |text|)
  {
    hide Render, ReadElement, Serialize, Merged, PlainTree;
    RenderIsPlain(opt, e, map["xml" := XML] + context, map["xml" := XML]);
    var o := Canonicalize(opt, e, context).value;
    StringDeterminesTree(o, "");
    assert Serialize(o) + "" == Serialize(o);
  }
}

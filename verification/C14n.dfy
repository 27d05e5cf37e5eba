/** Exclusive canonicalization of XML elements (authlab/saml/c14n.py). */
module C14n {
  import opened Ordering
  import opened XmlEscape

  const XML := "http://www.w3.org/XML/1998/namespace"

  type Namespaces = map<string, string>

  // ----- Input -----

  datatype Attribute = Attribute(prefix: string, local: string, value: string)

  datatype Element = Element(
    prefix: string,
    local: string,
    declared: Namespaces,
    attributes: seq<Attribute>,
    children: seq<Node>,
    excluded: bool)

  datatype Node = Child(e: Element) | Text(text: string) | Instruction(name: string, data: string) | Comment(text: string)

  /** `hasScheme` is urlsplit's verdict on a URI; the inclusive prefixes are those of the caller. */
  datatype Options = Options(hasScheme: string -> bool, inclusive: set<string>)

  /** The prefixes whose meaning shows on this element itself. */
  function Visible(e: Element): set<string> {
    {e.prefix} + set a | a in e.attributes && a.prefix != "" && a.prefix != "xml" :: a.prefix
  }

  function InScope(e: Element, inherited: Namespaces): Namespaces {
    inherited + e.declared
  }

  /** dict.get(prefix, ""). */
  function Lookup(env: Namespaces, prefix: string): string {
    if prefix in env then env[prefix] else ""
  }

  /** The namespace a prefix stands for; "xml" always stands for the same. */
  function Resolve(env: Namespaces, prefix: string): string {
    if prefix == "xml" then XML else Lookup(env, prefix)
  }

  /** An attribute without a prefix is in no namespace. */
  function AttributeUri(env: Namespaces, a: Attribute): string {
    if a.prefix == "" then "" else Resolve(env, a.prefix)
  }

  // ----- Output -----

  type Declaration = (string, string)

  datatype Output = Output(
    prefix: string,
    local: string,
    declarations: seq<Declaration>,
    attributes: seq<Attribute>,
    children: seq<OutputNode>)

  datatype OutputNode = OutChild(o: Output) | OutText(text: string) | OutInstruction(name: string, data: string)

  // ----- Declarations -----

  /** _validate_namespace. */
  predicate ValidNamespace(opt: Options, prefix: string, uri: string) {
    !(prefix != "" && uri == "") && (uri != "" ==> opt.hasScheme(uri))
  }

  datatype Declaring = Refused | Declaring(declarations: seq<Declaration>, rendered: Namespaces)

  /** One turn of the loop over the wanted prefixes. */
  function Declare(opt: Options, inScope: Namespaces, visible: set<string>, d: Declaring, prefix: string): Declaring {
    if d.Refused? then d
    else if prefix == "xml" || (prefix !in inScope && prefix !in visible) then d
    else
      var uri := Lookup(inScope, prefix);
      if !ValidNamespace(opt, prefix, uri) then Refused
      else if prefix in d.rendered && d.rendered[prefix] == uri then d
      else if prefix == "" && uri == "" && "" !in d.rendered then d
      else Declaring(d.declarations + [(prefix, uri)], d.rendered[prefix := uri])
  }

  function DeclareAll(opt: Options, inScope: Namespaces, visible: set<string>, d: Declaring, prefixes: seq<string>): Declaring {
    if prefixes == [] then d
    else
      var n := |prefixes| - 1;
      Declare(opt, inScope, visible, DeclareAll(opt, inScope, visible, d, prefixes[..n]), prefixes[n])
  }

  ghost function DeclarationsFor(opt: Options, e: Element, inScope: Namespaces, rendered: Namespaces): Declaring {
    DeclareAll(opt, inScope, Visible(e), Declaring([], rendered), Sorted(Visible(e) + opt.inclusive))
  }

  // ----- Attribute order -----

  predicate BeforeAttribute(env: Namespaces, a: Attribute, b: Attribute) {
    StringLess(AttributeUri(env, a), AttributeUri(env, b)) || (AttributeUri(env, a) == AttributeUri(env, b) && StringLess(a.local, b.local))
  }

  function InsertAttribute(env: Namespaces, a: Attribute, sorted: seq<Attribute>): seq<Attribute> {
    if sorted == [] || !BeforeAttribute(env, sorted[0], a) then [a] + sorted else [sorted[0]] + InsertAttribute(env, a, sorted[1..])
  }

  /** attributes.sort(key=(namespace, local name)), which is stable. */
  function SortAttributes(env: Namespaces, attributes: seq<Attribute>): seq<Attribute> {
    if attributes == [] then [] else InsertAttribute(env, attributes[0], SortAttributes(env, attributes[1..]))
  }

  // ----- _render_element as a tree -----

  datatype Rendering<+T> = Failed | Rendered(value: T)

  ghost function Render(opt: Options, e: Element, inherited: Namespaces, rendered: Namespaces): Rendering<Output>
    decreases e, 1
  {
    var inScope := InScope(e, inherited);
    match DeclarationsFor(opt, e, inScope, rendered)
    case Refused => Failed
    case Declaring(declarations, next) =>
      match RenderChildren(opt, e.children, inScope, next)
      case Failed => Failed
      case Rendered(children) =>
        Rendered(Output(e.prefix, e.local, declarations, SortAttributes(inScope, e.attributes), children))
  }

  ghost function RenderChildren(opt: Options, nodes: seq<Node>, inScope: Namespaces, rendered: Namespaces): Rendering<seq<OutputNode>>
    decreases nodes
  {
    if nodes == [] then Rendered([])
    else
      match RenderNode(opt, nodes[0], inScope, rendered)
      case Failed => Failed
      case Rendered(first) =>
        match RenderChildren(opt, nodes[1..], inScope, rendered)
        case Failed => Failed
        case Rendered(rest) => Rendered(first + rest)
  }

  /** Excluded elements and comments leave nothing. */
  ghost function RenderNode(opt: Options, node: Node, inScope: Namespaces, rendered: Namespaces): Rendering<seq<OutputNode>>
    decreases node
  {
    match node
    case Child(e) =>
      if e.excluded then Rendered([])
      else
        (match Render(opt, e, inScope, rendered)
         case Failed => Failed
         case Rendered(o) => Rendered([OutChild(o)]))
    case Text(text) => Rendered([OutText(text)])
    case Instruction(name, data) => Rendered([OutInstruction(name, data)])
    case Comment(text) => Rendered([])
  }

  /** exclusive_canonicalize of an element whose ancestors' declarations are `context`. */
  ghost function Canonicalize(opt: Options, e: Element, context: Namespaces): Rendering<Output> {
    Render(opt, e, map["xml" := XML] + context, map["xml" := XML])
  }

  // ----- Meaning: trees of expanded names -----

  datatype Name = Name(uri: string, local: string)

  datatype Meaning =
    | Named(name: Name, attributes: multiset<(Name, string)>, children: seq<Meaning>)
    | Characters(text: string)
    | Processing(target: string, data: string)

  function AttributeMeaning(env: Namespaces, attributes: seq<Attribute>): multiset<(Name, string)> {
    if attributes == [] then multiset{}
    else AttributeMeaning(env, attributes[1..]) + multiset{(Name(AttributeUri(env, attributes[0]), attributes[0].local), attributes[0].value)}
  }

  /** What the input means under its context, without comments and excluded elements. */
  function InputMeaning(e: Element, inherited: Namespaces): Meaning
    decreases e, 1
  {
    var inScope := InScope(e, inherited);
    Named(Name(Resolve(inScope, e.prefix), e.local), AttributeMeaning(inScope, e.attributes), ChildrenMeaning(e.children, inScope))
  }

  function ChildrenMeaning(nodes: seq<Node>, inScope: Namespaces): seq<Meaning>
    decreases nodes
  {
    if nodes == [] then [] else NodeMeaning(nodes[0], inScope) + ChildrenMeaning(nodes[1..], inScope)
  }

  function NodeMeaning(node: Node, inScope: Namespaces): seq<Meaning>
    decreases node
  {
    match node
    case Child(e) => if e.excluded then [] else [InputMeaning(e, inScope)]
    case Text(text) => [Characters(text)]
    case Instruction(name, data) => [Processing(name, data)]
    case Comment(text) => []
  }

  /** Declarations take effect one after the other. */
  function InEffect(env: Namespaces, declarations: seq<Declaration>): Namespaces {
    if declarations == [] then env
    else
      var n := |declarations| - 1;
      InEffect(env, declarations[..n])[declarations[n].0 := declarations[n].1]
  }

  /** What a reader of the output makes of it, going by the emitted declarations alone. */
  function OutputMeaning(o: Output, env: Namespaces): Meaning
    decreases o, 1
  {
    var here := InEffect(env, o.declarations);
    Named(Name(Resolve(here, o.prefix), o.local), AttributeMeaning(here, o.attributes), OutputChildrenMeaning(o.children, here))
  }

  function OutputChildrenMeaning(nodes: seq<OutputNode>, env: Namespaces): seq<Meaning>
    decreases nodes
  {
    if nodes == [] then [] else [OutputNodeMeaning(nodes[0], env)] + OutputChildrenMeaning(nodes[1..], env)
  }

  function OutputNodeMeaning(node: OutputNode, env: Namespaces): Meaning
    decreases node
  {
    match node
    case OutChild(o) => OutputMeaning(o, env)
    case OutText(text) => Characters(text)
    case OutInstruction(name, data) => Processing(name, data)
  }

  // ----- What the loop over the prefixes achieves -----

  /** A declaration that says something new: not in effect yet, and xmlns="" only to cancel another default. */
  ghost predicate SaysSomething(rendered: Namespaces, d: Declaration) {
    && d.0 != "xml" && !(d.0 in rendered && rendered[d.0] == d.1)
    && (d.0 == "" && d.1 == "" ==> "" in rendered && rendered[""] != "")
  }

  /** The wanted prefixes mean in the output what they mean in the input. */
  ghost predicate Settled(inScope: Namespaces, visible: set<string>, env: Namespaces, prefixes: seq<string>) {
    forall p :: p in prefixes && p != "xml" && (p in inScope || p in visible) ==> Lookup(env, p) == Lookup(inScope, p)
  }

  ghost predicate SameAt(a: Namespaces, b: Namespaces, p: string) {
    (p in a <==> p in b) && Lookup(a, p) == Lookup(b, p)
  }

  ghost predicate Untouched(env: Namespaces, rendered: Namespaces, prefixes: seq<string>) {
    forall p :: p !in prefixes || p == "xml" ==> SameAt(env, rendered, p)
  }

  ghost predicate AllNew(rendered: Namespaces, declarations: seq<Declaration>, prefixes: seq<string>) {
    && (forall i :: 0 <= i < |declarations| ==> SaysSomething(rendered, declarations[i]) && declarations[i].0 in prefixes)
    && (forall i, j :: 0 <= i < j < |declarations| ==> StringLess(declarations[i].0, declarations[j].0))
  }

  ghost predicate Achieves(inScope: Namespaces, visible: set<string>, rendered: Namespaces, d: Declaring, prefixes: seq<string>)
    requires d.Declaring?
  {
    && d.rendered == InEffect(rendered, d.declarations) && Settled(inScope, visible, d.rendered, prefixes)
    && Untouched(d.rendered, rendered, prefixes) && AllNew(rendered, d.declarations, prefixes)
  }

  lemma {:induction false} DeclareAllAchieves(opt: Options, inScope: Namespaces, visible: set<string>, rendered: Namespaces, prefixes: seq<string>)
    requires Ascending(prefixes)
    requires DeclareAll(opt, inScope, visible, Declaring([], rendered), prefixes).Declaring?
    ensures Achieves(inScope, visible, rendered, DeclareAll(opt, inScope, visible, Declaring([], rendered), prefixes), prefixes)
    decreases |prefixes|
  {
    if prefixes != [] {
      var n := |prefixes| - 1;
      DeclareAllAchieves(opt, inScope, visible, rendered, prefixes[..n]);
      NotEarlier(prefixes);
      assert prefixes == prefixes[..n] + [prefixes[n]];
      DeclareAchieves(opt, inScope, visible, rendered, DeclareAll(opt, inScope, visible, Declaring([], rendered), prefixes[..n]), prefixes[..n], prefixes[n]);
    }
  }

  lemma NotEarlier(prefixes: seq<string>)
    requires Ascending(prefixes) && prefixes != []
    ensures AllBelow(prefixes[..|prefixes| - 1], prefixes[|prefixes| - 1])
  {
    var n := |prefixes| - 1;
    forall p | p in prefixes[..n]
      ensures StringLess(p, prefixes[n]) && p != prefixes[n]
    {
      StringTotal(p, p);
    }
  }

  ghost predicate AllBelow(before: seq<string>, prefix: string) {
    forall p :: p in before ==> StringLess(p, prefix) && p != prefix
  }

  lemma DeclareAchieves(opt: Options, inScope: Namespaces, visible: set<string>, rendered: Namespaces, d: Declaring, before: seq<string>, prefix: string)
    requires d.Declaring? && Achieves(inScope, visible, rendered, d, before)
    requires AllBelow(before, prefix)
    requires Declare(opt, inScope, visible, d, prefix).Declaring?
    ensures Achieves(inScope, visible, rendered, Declare(opt, inScope, visible, d, prefix), before + [prefix])
  {
    hide StringLess, ValidNamespace, SaysSomething, InEffect;
    var next := Declare(opt, inScope, visible, d, prefix);
    if next == d {
      assert Settled(inScope, visible, d.rendered, before + [prefix]);
      AllNewStays(rendered, d.declarations, before, prefix);
    } else {
      var x := (prefix, Lookup(inScope, prefix));
      hide Settled, Untouched, AllNew, Lookup;
      DeclaredStep(inScope, visible, rendered, d, before, x);
    }
  }

  lemma AllNewStays(rendered: Namespaces, declarations: seq<Declaration>, before: seq<string>, prefix: string)
    requires AllNew(rendered, declarations, before)
    ensures AllNew(rendered, declarations, before + [prefix])
  {
    hide StringLess, SaysSomething;
  }

  lemma DeclaredStep(inScope: Namespaces, visible: set<string>, rendered: Namespaces, d: Declaring, before: seq<string>, x: Declaration)
    requires d.Declaring? && Achieves(inScope, visible, rendered, d, before) && AllBelow(before, x.0)
    requires x.0 != "xml" && x.1 == Lookup(inScope, x.0) && !(x.0 in d.rendered && d.rendered[x.0] == x.1)
    requires !(x.0 == "" && x.1 == "" && "" !in d.rendered)
    ensures Achieves(inScope, visible, rendered, Declaring(d.declarations + [x], d.rendered[x.0 := x.1]), before + [x.0])
  {
    EffectStep(rendered, d.declarations, x);
    SettledStep(inScope, visible, d.rendered, before, x);
    UntouchedStep(d.rendered, rendered, before, x);
    assert SameAt(d.rendered, rendered, x.0);
    assert SaysSomething(rendered, x);
    hide SaysSomething, Settled, Untouched, Lookup, SameAt, InEffect, StringLess;
    forall i | 0 <= i < |d.declarations|
      ensures StringLess(d.declarations[i].0, x.0)
    {
      assert d.declarations[i].0 in before;
    }
  }

  lemma EffectStep(rendered: Namespaces, declarations: seq<Declaration>, x: Declaration)
    ensures InEffect(rendered, declarations + [x]) == InEffect(rendered, declarations)[x.0 := x.1]
  {
    assert (declarations + [x])[..|declarations|] == declarations;
  }

  lemma SettledStep(inScope: Namespaces, visible: set<string>, env: Namespaces, before: seq<string>, x: Declaration)
    requires Settled(inScope, visible, env, before) && x.1 == Lookup(inScope, x.0)
    ensures Settled(inScope, visible, env[x.0 := x.1], before + [x.0])
  {
  }

  lemma UntouchedStep(env: Namespaces, rendered: Namespaces, before: seq<string>, x: Declaration)
    requires Untouched(env, rendered, before) && x.0 != "xml"
    ensures Untouched(env[x.0 := x.1], rendered, before + [x.0])
  {
  }

  // ----- Attribute order -----

  lemma BeforeTotal(env: Namespaces, a: Attribute, b: Attribute)
    ensures !(BeforeAttribute(env, a, b) && BeforeAttribute(env, b, a))
    ensures SameAttributeKey(env, a, b) <==> !BeforeAttribute(env, a, b) && !BeforeAttribute(env, b, a)
  {
    hide AttributeUri;
    StringTotal(AttributeUri(env, a), AttributeUri(env, b));
    StringTotal(AttributeUri(env, b), AttributeUri(env, a));
    StringTotal(a.local, b.local);
    StringTotal(b.local, a.local);
  }

  predicate SameAttributeKey(env: Namespaces, a: Attribute, b: Attribute) {
    AttributeUri(env, a) == AttributeUri(env, b) && a.local == b.local
  }

  lemma BeforeTransitive(env: Namespaces, a: Attribute, b: Attribute, c: Attribute)
    requires BeforeAttribute(env, a, b) && BeforeAttribute(env, b, c)
    ensures BeforeAttribute(env, a, c)
  {
    hide AttributeUri, StringLess;
    var u, v, w := AttributeUri(env, a), AttributeUri(env, b), AttributeUri(env, c);
    if StringLess(u, v) && StringLess(v, w) {
      StringTransitive(u, v, w);
    } else if u == v == w {
      StringTransitive(a.local, b.local, c.local);
    }
  }

  ghost predicate InOrder(env: Namespaces, attributes: seq<Attribute>) {
    forall i, j :: 0 <= i < j < |attributes| ==> BeforeAttribute(env, attributes[i], attributes[j])
  }

  /** No two attributes have the same expanded name, as namespace well-formedness demands. */
  ghost predicate NamesDiffer(env: Namespaces, attributes: seq<Attribute>) {
    forall i, j :: 0 <= i < j < |attributes| ==> !SameAttributeKey(env, attributes[i], attributes[j])
  }

  lemma {:induction false} InsertInOrder(env: Namespaces, a: Attribute, sorted: seq<Attribute>)
    requires InOrder(env, sorted) && forall x :: x in sorted ==> !SameAttributeKey(env, a, x)
    ensures InOrder(env, InsertAttribute(env, a, sorted))
    ensures forall x :: x in InsertAttribute(env, a, sorted) <==> x == a || x in sorted
  {
    hide BeforeAttribute, SameAttributeKey;
    var r := InsertAttribute(env, a, sorted);
    if sorted == [] {
    } else {
      BeforeTotal(env, a, sorted[0]);
      assert sorted[0] in sorted && sorted == [sorted[0]] + sorted[1..];
      if !BeforeAttribute(env, sorted[0], a) {
        forall j | 0 < j < |r|
          ensures BeforeAttribute(env, a, r[j])
        {
          if j > 1 {
            BeforeTransitive(env, a, sorted[0], sorted[j - 1]);
          }
        }
      } else {
        InsertInOrder(env, a, sorted[1..]);
        forall j | 0 < j < |r|
          ensures BeforeAttribute(env, sorted[0], r[j])
        {
          assert r[j] in InsertAttribute(env, a, sorted[1..]);
          if r[j] != a {
            var i :| 0 <= i < |sorted[1..]| && sorted[1..][i] == r[j];
            assert BeforeAttribute(env, sorted[0], sorted[i + 1]);
          }
        }
      }
    }
  }

  /** The attributes come out ordered by namespace, and within one by local name. */
  lemma SortIsByNamespace(env: Namespaces, attributes: seq<Attribute>, i: nat, j: nat)
    requires NamesDiffer(env, attributes) && i < j < |SortAttributes(env, attributes)|
    ensures var a, b := SortAttributes(env, attributes)[i], SortAttributes(env, attributes)[j];
      var u, v := AttributeUri(env, a), AttributeUri(env, b);
      StringLess(u, v) || (u == v && StringLess(a.local, b.local))
  {
    hide SortAttributes;
    SortIsInOrder(env, attributes);
  }

  lemma {:induction false} SortIsInOrder(env: Namespaces, attributes: seq<Attribute>)
    requires NamesDiffer(env, attributes)
    ensures InOrder(env, SortAttributes(env, attributes))
    ensures forall x :: x in SortAttributes(env, attributes) <==> x in attributes
  {
    hide BeforeAttribute, SameAttributeKey;
    if attributes != [] {
      SortIsInOrder(env, attributes[1..]);
      assert attributes == [attributes[0]] + attributes[1..];
      InsertInOrder(env, attributes[0], SortAttributes(env, attributes[1..]));
    }
  }

  lemma {:induction false} OrderIsUnique(env: Namespaces, a: seq<Attribute>, b: seq<Attribute>)
    requires InOrder(env, a) && InOrder(env, b) && forall x :: x in a <==> x in b
    ensures a == b
    decreases |a|
  {
    hide BeforeAttribute;
    EmptyOrMember(b);
    if a != [] {
      EmptyOrMember(a);
      SameFirstAttribute(env, a, b);
      TailMembers(env, a);
      TailMembers(env, b);
      OrderIsUnique(env, a[1..], b[1..]);
      assert a == [a[0]] + a[1..] && b == [b[0]] + b[1..];
    }
  }

  lemma EmptyOrMember(s: seq<Attribute>)
    ensures s == [] || s[0] in s
  {
  }

  lemma SameFirstAttribute(env: Namespaces, a: seq<Attribute>, b: seq<Attribute>)
    requires InOrder(env, a) && InOrder(env, b) && a != [] && b != [] && a[0] in b && b[0] in a
    ensures a[0] == b[0]
  {
    hide BeforeAttribute;
    var i :| 0 <= i < |b| && b[i] == a[0];
    var j :| 0 <= j < |a| && a[j] == b[0];
    if i > 0 && j > 0 {
      assert BeforeAttribute(env, b[0], b[i]) && BeforeAttribute(env, a[0], a[j]);
      BeforeTotal(env, a[0], b[0]);
    }
  }

  lemma TailMembers(env: Namespaces, a: seq<Attribute>)
    requires InOrder(env, a) && a != []
    ensures InOrder(env, a[1..]) && forall x :: x in a[1..] <==> x in a && x != a[0]
  {
    hide BeforeAttribute;
    assert a == [a[0]] + a[1..];
    forall i | 0 < i < |a|
      ensures a[i] != a[0]
    {
      BeforeTotal(env, a[0], a[i]);
    }
  }

  /** The order in which attributes were written is irrelevant to the canonical form. */
  lemma WrittenOrderIsIrrelevant(env: Namespaces, a: seq<Attribute>, b: seq<Attribute>)
    requires NamesDiffer(env, a) && NamesDiffer(env, b) && forall x :: x in a <==> x in b
    ensures SortAttributes(env, a) == SortAttributes(env, b)
  {
    hide SortAttributes, InOrder;
    SortIsInOrder(env, a);
    SortIsInOrder(env, b);
    OrderIsUnique(env, SortAttributes(env, a), SortAttributes(env, b));
  }

  // ----- Names are preserved -----

  lemma {:induction false} InsertKeepsMeaning(env: Namespaces, order: Namespaces, a: Attribute, sorted: seq<Attribute>)
    ensures AttributeMeaning(env, InsertAttribute(order, a, sorted)) == AttributeMeaning(env, [a] + sorted)
    ensures forall x :: x in InsertAttribute(order, a, sorted) <==> x == a || x in sorted
  {
    assert ([a] + sorted)[1..] == sorted;
    if !(sorted == [] || !BeforeAttribute(order, sorted[0], a)) {
      InsertKeepsMeaning(env, order, a, sorted[1..]);
      assert ([a] + sorted[1..])[1..] == sorted[1..];
      var r := InsertAttribute(order, a, sorted);
      assert r[1..] == InsertAttribute(order, a, sorted[1..]);
      assert sorted == [sorted[0]] + sorted[1..];
    }
  }

  /** Sorting attributes changes neither which there are nor what they mean. */
  lemma {:induction false} SortKeepsMeaning(env: Namespaces, order: Namespaces, attributes: seq<Attribute>)
    ensures AttributeMeaning(env, SortAttributes(order, attributes)) == AttributeMeaning(env, attributes)
    ensures forall x :: x in SortAttributes(order, attributes) <==> x in attributes
  {
    if attributes != [] {
      var sorted := SortAttributes(order, attributes[1..]);
      SortKeepsMeaning(env, order, attributes[1..]);
      InsertKeepsMeaning(env, order, attributes[0], sorted);
      assert ([attributes[0]] + sorted)[1..] == sorted;
      assert attributes == [attributes[0]] + attributes[1..];
    }
  }

  lemma {:induction false} SameAttributeMeaning(a: Namespaces, b: Namespaces, attributes: seq<Attribute>)
    requires forall x :: x in attributes ==> AttributeUri(a, x) == AttributeUri(b, x)
    ensures AttributeMeaning(a, attributes) == AttributeMeaning(b, attributes)
  {
    if attributes != [] {
      SameAttributeMeaning(a, b, attributes[1..]);
    }
  }

  /** After an element's declarations its visible prefixes mean what they mean in the input. */
  lemma DeclarationsResolve(opt: Options, e: Element, inScope: Namespaces, rendered: Namespaces)
    requires DeclarationsFor(opt, e, inScope, rendered).Declaring?
    ensures var d := DeclarationsFor(opt, e, inScope, rendered);
      Achieves(inScope, Visible(e), rendered, d, Sorted(Visible(e) + opt.inclusive))
      && forall p :: p in Visible(e) ==> Resolve(d.rendered, p) == Resolve(inScope, p)
  {
    var prefixes := Sorted(Visible(e) + opt.inclusive);
    DeclareAllAchieves(opt, inScope, Visible(e), rendered, prefixes);
  }

  lemma VisibleAttributes(e: Element, a: Namespaces, b: Namespaces)
    requires forall p :: p in Visible(e) ==> Resolve(a, p) == Resolve(b, p)
    ensures forall x :: x in e.attributes ==> AttributeUri(a, x) == AttributeUri(b, x)
  {
    hide Resolve;
    forall x | x in e.attributes
      ensures AttributeUri(a, x) == AttributeUri(b, x)
    {
      if x.prefix == "xml" {
        ResolveXml(a, b);
      }
    }
  }

  lemma ResolveXml(a: Namespaces, b: Namespaces)
    ensures Resolve(a, "xml") == Resolve(b, "xml")
  {
  }

  /**
   Reading the output by its own declarations gives the tree of expanded names, attributes and text of the input
   under its context: canonicalization never changes what a name means.
   */
  lemma {:induction false} MeaningPreserved(opt: Options, e: Element, inherited: Namespaces, rendered: Namespaces)
    requires Render(opt, e, inherited, rendered).Rendered?
    ensures OutputMeaning(Render(opt, e, inherited, rendered).value, rendered) == InputMeaning(e, inherited)
    decreases e, 1
  {
    hide DeclarationsFor, Visible, Resolve, AttributeMeaning, SortAttributes, RenderChildren;
    var inScope := InScope(e, inherited);
    var d := DeclarationsFor(opt, e, inScope, rendered);
    var o := Render(opt, e, inherited, rendered).value;
    DeclarationsResolve(opt, e, inScope, rendered);
    assert InEffect(rendered, o.declarations) == d.rendered;
    OwnPrefix(e);
    VisibleAttributes(e, d.rendered, inScope);
    SortKeepsMeaning(d.rendered, inScope, e.attributes);
    SameAttributeMeaning(d.rendered, inScope, e.attributes);
    ChildrenMeaningPreserved(opt, e.children, inScope, d.rendered);
  }

  lemma OwnPrefix(e: Element)
    ensures e.prefix in Visible(e)
  {
  }

  lemma {:induction false} ChildrenMeaningPreserved(opt: Options, nodes: seq<Node>, inScope: Namespaces, rendered: Namespaces)
    requires RenderChildren(opt, nodes, inScope, rendered).Rendered?
    ensures OutputChildrenMeaning(RenderChildren(opt, nodes, inScope, rendered).value, rendered) == ChildrenMeaning(nodes, inScope)
    decreases nodes
  {
    if nodes != [] {
      hide OutputMeaning, InputMeaning, Render;
      var first := RenderNode(opt, nodes[0], inScope, rendered).value;
      var rest := RenderChildren(opt, nodes[1..], inScope, rendered).value;
      ChildrenMeaningPreserved(opt, nodes[1..], inScope, rendered);
      NodeMeaningPreserved(opt, nodes[0], inScope, rendered);
      if first == [] {
        assert first + rest == rest;
      } else {
        assert (first + rest)[1..] == rest;
      }
    }
  }

  lemma {:induction false} NodeMeaningPreserved(opt: Options, node: Node, inScope: Namespaces, rendered: Namespaces)
    requires RenderNode(opt, node, inScope, rendered).Rendered?
    ensures var out := RenderNode(opt, node, inScope, rendered).value;
      |out| <= 1 && NodeMeaning(node, inScope) == if out == [] then [] else [OutputNodeMeaning(out[0], rendered)]
    decreases node
  {
    if node.Child? && !node.e.excluded {
      MeaningPreserved(opt, node.e, inScope, rendered);
    }
  }

  // ----- No superfluous declaration -----

  function OutputVisible(o: Output): set<string> {
    {o.prefix} + set a | a in o.attributes && a.prefix != "" && a.prefix != "xml" :: a.prefix
  }

  /** Throughout the output: declarations sorted, each for a prefix in use or asked for, and none already in effect. */
  ghost predicate Lean(opt: Options, o: Output, env: Namespaces)
    decreases o, 1
  {
    && LeanHere(opt, o, env)
    && forall i :: 0 <= i < |o.children| ==> LeanNode(opt, o.children[i], InEffect(env, o.declarations))
  }

  ghost predicate LeanNode(opt: Options, node: OutputNode, env: Namespaces)
    decreases node
  {
    node.OutChild? ==> Lean(opt, node.o, env)
  }

  ghost predicate LeanHere(opt: Options, o: Output, env: Namespaces) {
    && (forall i :: 0 <= i < |o.declarations| ==>
          SaysSomething(env, o.declarations[i]) && o.declarations[i].0 in OutputVisible(o) + opt.inclusive)
    && (forall i, j :: 0 <= i < j < |o.declarations| ==> StringLess(o.declarations[i].0, o.declarations[j].0))
  }

  lemma {:induction false} OutputIsLean(opt: Options, e: Element, inherited: Namespaces, rendered: Namespaces)
    requires Render(opt, e, inherited, rendered).Rendered?
    ensures Lean(opt, Render(opt, e, inherited, rendered).value, rendered)
    decreases e, 1
  {
    hide DeclarationsFor, SortAttributes, RenderChildren, SaysSomething, Settled, Untouched, StringLess;
    var inScope := InScope(e, inherited);
    var d := DeclarationsFor(opt, e, inScope, rendered);
    var o := Render(opt, e, inherited, rendered).value;
    DeclarationsResolve(opt, e, inScope, rendered);
    SortKeepsMeaning(inScope, inScope, e.attributes);
    assert OutputVisible(o) == Visible(e);
    hide Visible, OutputVisible;
    assert LeanHere(opt, o, rendered);
    ChildrenAreLean(opt, e.children, inScope, d.rendered);
  }

  lemma {:induction false} ChildrenAreLean(opt: Options, nodes: seq<Node>, inScope: Namespaces, rendered: Namespaces)
    requires RenderChildren(opt, nodes, inScope, rendered).Rendered?
    ensures forall i :: 0 <= i < |RenderChildren(opt, nodes, inScope, rendered).value| ==>
      LeanNode(opt, RenderChildren(opt, nodes, inScope, rendered).value[i], rendered)
    decreases nodes
  {
    if nodes != [] {
      hide Lean, Render;
      ChildrenAreLean(opt, nodes[1..], inScope, rendered);
      NodeIsLean(opt, nodes[0], inScope, rendered);
    }
  }

  lemma {:induction false} NodeIsLean(opt: Options, node: Node, inScope: Namespaces, rendered: Namespaces)
    requires RenderNode(opt, node, inScope, rendered).Rendered?
    ensures forall i :: 0 <= i < |RenderNode(opt, node, inScope, rendered).value| ==>
      LeanNode(opt, RenderNode(opt, node, inScope, rendered).value[i], rendered)
    decreases node
  {
    if node.Child? && !node.e.excluded {
      OutputIsLean(opt, node.e, inScope, rendered);
    }
  }

  // ----- Independence of the context -----

  /** The prefixes whose meaning the element takes from its ancestors. */
  function Free(e: Element): set<string>
    decreases e, 1
  {
    (Visible(e) + FreeIn(e.children)) - e.declared.Keys - {"xml"}
  }

  function FreeIn(nodes: seq<Node>): set<string>
    decreases nodes
  {
    if nodes == [] then {} else FreeInNode(nodes[0]) + FreeIn(nodes[1..])
  }

  function FreeInNode(node: Node): set<string>
    decreases node
  {
    if node.Child? && !node.e.excluded then Free(node.e) else {}
  }

  lemma {:induction false} XmlIsNeverFree(nodes: seq<Node>)
    ensures "xml" !in FreeIn(nodes)
  {
    if nodes != [] {
      XmlIsNeverFree(nodes[1..]);
      assert nodes[0].Child? ==> "xml" !in Free(nodes[0].e);
    }
  }

  ghost predicate AgreeOn(a: Namespaces, b: Namespaces, prefixes: set<string>) {
    forall p :: p in prefixes ==> Lookup(a, p) == Lookup(b, p)
  }

  lemma {:induction false} SameDeclarations(opt: Options, a: Namespaces, b: Namespaces, visible: set<string>, d: Declaring, prefixes: seq<string>)
    requires (forall p :: p in prefixes ==> p in visible) && AgreeOn(a, b, visible - {"xml"})
    ensures DeclareAll(opt, a, visible, d, prefixes) == DeclareAll(opt, b, visible, d, prefixes)
    decreases |prefixes|
  {
    if prefixes != [] {
      var n := |prefixes| - 1;
      assert forall p :: p in prefixes[..n] ==> p in prefixes;
      SameDeclarations(opt, a, b, visible, d, prefixes[..n]);
      assert prefixes[n] in prefixes;
    }
  }

  lemma {:induction false} SameInsert(a: Namespaces, b: Namespaces, x: Attribute, sorted: seq<Attribute>)
    requires AttributeUri(a, x) == AttributeUri(b, x) && forall y :: y in sorted ==> AttributeUri(a, y) == AttributeUri(b, y)
    ensures InsertAttribute(a, x, sorted) == InsertAttribute(b, x, sorted)
  {
    hide AttributeUri;
    if sorted != [] {
      assert sorted[0] in sorted;
      SameInsert(a, b, x, sorted[1..]);
    }
  }

  lemma {:induction false} SameSort(a: Namespaces, b: Namespaces, attributes: seq<Attribute>)
    requires forall y :: y in attributes ==> AttributeUri(a, y) == AttributeUri(b, y)
    ensures SortAttributes(a, attributes) == SortAttributes(b, attributes)
  {
    hide AttributeUri;
    if attributes != [] {
      SameSort(a, b, attributes[1..]);
      SortKeepsMeaning(a, a, attributes[1..]);
      SameInsert(a, b, attributes[0], SortAttributes(a, attributes[1..]));
    }
  }

  /** Without inclusive prefixes the rendering depends on the context only through the free prefixes, errors included. */
  lemma {:induction false} SameRendering(opt: Options, e: Element, a: Namespaces, b: Namespaces, rendered: Namespaces)
    requires opt.inclusive == {} && AgreeOn(a, b, Free(e))
    ensures Render(opt, e, a, rendered) == Render(opt, e, b, rendered)
    decreases e, 1
  {
    hide Visible, RenderChildren, SortAttributes, DeclareAll, FreeIn, Resolve;
    var inA, inB := InScope(e, a), InScope(e, b);
    XmlIsNeverFree(e.children);
    AgreeBelow(e, a, b, Visible(e) - {"xml"});
    AgreeBelow(e, a, b, FreeIn(e.children));
    assert Visible(e) + opt.inclusive == Visible(e);
    SameDeclarations(opt, inA, inB, Visible(e), Declaring([], rendered), Sorted(Visible(e)));
    AgreeResolves(inA, inB, Visible(e));
    VisibleAttributes(e, inA, inB);
    SameSort(inA, inB, e.attributes);
    var d := DeclarationsFor(opt, e, inA, rendered);
    if d.Declaring? {
      SameChildren(opt, e.children, inA, inB, d.rendered);
    }
  }

  lemma AgreeBelow(e: Element, a: Namespaces, b: Namespaces, prefixes: set<string>)
    requires AgreeOn(a, b, prefixes - e.declared.Keys)
    ensures AgreeOn(InScope(e, a), InScope(e, b), prefixes)
  {
    forall p | p in prefixes
      ensures Lookup(InScope(e, a), p) == Lookup(InScope(e, b), p)
    {
      if p !in e.declared {
        assert p in prefixes - e.declared.Keys;
      }
    }
  }

  lemma AgreeResolves(a: Namespaces, b: Namespaces, prefixes: set<string>)
    requires AgreeOn(a, b, prefixes - {"xml"})
    ensures forall p :: p in prefixes ==> Resolve(a, p) == Resolve(b, p)
  {
  }

  lemma {:induction false} SameChildren(opt: Options, nodes: seq<Node>, a: Namespaces, b: Namespaces, rendered: Namespaces)
    requires opt.inclusive == {} && AgreeOn(a, b, FreeIn(nodes))
    ensures RenderChildren(opt, nodes, a, rendered) == RenderChildren(opt, nodes, b, rendered)
    decreases nodes
  {
    if nodes != [] {
      hide Render, Free;
      SameChildren(opt, nodes[1..], a, b, rendered);
      SameNode(opt, nodes[0], a, b, rendered);
    }
  }

  lemma {:induction false} SameNode(opt: Options, node: Node, a: Namespaces, b: Namespaces, rendered: Namespaces)
    requires opt.inclusive == {} && AgreeOn(a, b, FreeInNode(node))
    ensures RenderNode(opt, node, a, rendered) == RenderNode(opt, node, b, rendered)
    decreases node
  {
    if node.Child? && !node.e.excluded {
      SameRendering(opt, node.e, a, b, rendered);
    }
  }

  /** A subtree canonicalizes alike wherever its free prefixes mean the same. */
  lemma ContextIndependent(opt: Options, e: Element, a: Namespaces, b: Namespaces)
    requires opt.inclusive == {} && AgreeOn(a, b, Free(e))
    ensures Canonicalize(opt, e, a) == Canonicalize(opt, e, b)
  {
    hide Render, Visible, FreeIn;
    var base: Namespaces := map["xml" := XML];
    assert AgreeOn(base + a, base + b, Free(e));
    SameRendering(opt, e, base + a, base + b, base);
  }

  /** The statement for whole calls: names resolve, by the emitted declarations, to their input namespaces. */
  lemma CanonicalFormPreservesNames(opt: Options, e: Element, context: Namespaces)
    requires Canonicalize(opt, e, context).Rendered?
    ensures OutputMeaning(Canonicalize(opt, e, context).value, map["xml" := XML]) == InputMeaning(e, map["xml" := XML] + context)
    ensures Lean(opt, Canonicalize(opt, e, context).value, map["xml" := XML])
  {
    hide Render, OutputMeaning, InputMeaning, Lean;
    MeaningPreserved(opt, e, map["xml" := XML] + context, map["xml" := XML]);
    OutputIsLean(opt, e, map["xml" := XML] + context, map["xml" := XML]);
  }

  // ----- When canonicalization fails -----

  /** The element asks for this prefix, which is undeclared or bound to a relative URI. */
  predicate Unusable(opt: Options, e: Element, inScope: Namespaces, prefix: string) {
    && prefix in Visible(e) + opt.inclusive && prefix != "xml" && (prefix in inScope || prefix in Visible(e))
    && !ValidNamespace(opt, prefix, Lookup(inScope, prefix))
  }

  /** The elements that are not cut out, each with the declarations in scope there. */
  ghost function Sites(e: Element, inherited: Namespaces): set<(Element, Namespaces)>
    decreases e, 1
  {
    {(e, InScope(e, inherited))} + SitesIn(e.children, InScope(e, inherited))
  }

  ghost function SitesIn(nodes: seq<Node>, inScope: Namespaces): set<(Element, Namespaces)>
    decreases nodes
  {
    if nodes == [] then {} else SitesAt(nodes[0], inScope) + SitesIn(nodes[1..], inScope)
  }

  ghost function SitesAt(node: Node, inScope: Namespaces): set<(Element, Namespaces)>
    decreases node
  {
    if node.Child? && !node.e.excluded then Sites(node.e, inScope) else {}
  }

  ghost predicate Trouble(opt: Options, sites: set<(Element, Namespaces)>) {
    exists s, p :: s in sites && Unusable(opt, s.0, s.1, p)
  }

  lemma TroubleSplits(opt: Options, a: set<(Element, Namespaces)>, b: set<(Element, Namespaces)>)
    ensures Trouble(opt, a + b) <==> Trouble(opt, a) || Trouble(opt, b)
  {
    hide Unusable;
  }

  predicate Blocked(opt: Options, inScope: Namespaces, visible: set<string>, prefix: string) {
    prefix != "xml" && (prefix in inScope || prefix in visible) && !ValidNamespace(opt, prefix, Lookup(inScope, prefix))
  }

  lemma {:induction false} RefusedIff(opt: Options, inScope: Namespaces, visible: set<string>, d: Declaring, prefixes: seq<string>)
    requires d.Declaring?
    ensures DeclareAll(opt, inScope, visible, d, prefixes).Refused? <==> exists p :: p in prefixes && Blocked(opt, inScope, visible, p)
    decreases |prefixes|
  {
    if prefixes != [] {
      var n := |prefixes| - 1;
      RefusedIff(opt, inScope, visible, d, prefixes[..n]);
      assert prefixes == prefixes[..n] + [prefixes[n]];
      DeclareRefuses(opt, inScope, visible, DeclareAll(opt, inScope, visible, d, prefixes[..n]), prefixes[n]);
      hide Blocked;
    }
  }

  lemma DeclareRefuses(opt: Options, inScope: Namespaces, visible: set<string>, d: Declaring, prefix: string)
    ensures Declare(opt, inScope, visible, d, prefix).Refused? <==> d.Refused? || Blocked(opt, inScope, visible, prefix)
  {
  }

  lemma ElementRefuses(opt: Options, e: Element, inScope: Namespaces, rendered: Namespaces)
    ensures DeclarationsFor(opt, e, inScope, rendered).Refused? <==> Trouble(opt, {(e, inScope)})
  {
    var prefixes := Sorted(Visible(e) + opt.inclusive);
    RefusedIff(opt, inScope, Visible(e), Declaring([], rendered), prefixes);
    hide Visible, DeclareAll, ValidNamespace, Lookup;
    assert forall p :: Unusable(opt, e, inScope, p) <==> p in prefixes && Blocked(opt, inScope, Visible(e), p);
    hide Blocked, Unusable;
    if p :| p in prefixes && Blocked(opt, inScope, Visible(e), p) {
      assert Unusable(opt, e, inScope, p) && (e, inScope) in {(e, inScope)};
    }
  }

  /** Rendering fails exactly where an element that is not cut out asks for an unusable prefix; what is already rendered has no say. */
  lemma {:induction false} FailsIff(opt: Options, e: Element, inherited: Namespaces, rendered: Namespaces)
    ensures Render(opt, e, inherited, rendered).Failed? <==> Trouble(opt, Sites(e, inherited))
    decreases e, 1
  {
    hide DeclarationsFor, Trouble, SortAttributes, RenderChildren, SitesIn;
    var inScope := InScope(e, inherited);
    ElementRefuses(opt, e, inScope, rendered);
    TroubleSplits(opt, {(e, inScope)}, SitesIn(e.children, inScope));
    var d := DeclarationsFor(opt, e, inScope, rendered);
    if d.Declaring? {
      ChildrenFailIff(opt, e.children, inScope, d.rendered);
    }
  }

  lemma {:induction false} ChildrenFailIff(opt: Options, nodes: seq<Node>, inScope: Namespaces, rendered: Namespaces)
    ensures RenderChildren(opt, nodes, inScope, rendered).Failed? <==> Trouble(opt, SitesIn(nodes, inScope))
    decreases nodes
  {
    if nodes != [] {
      hide Trouble, RenderNode, SitesAt;
      ChildrenFailIff(opt, nodes[1..], inScope, rendered);
      NodeFailsIff(opt, nodes[0], inScope, rendered);
      TroubleSplits(opt, SitesAt(nodes[0], inScope), SitesIn(nodes[1..], inScope));
    }
  }

  lemma {:induction false} NodeFailsIff(opt: Options, node: Node, inScope: Namespaces, rendered: Namespaces)
    ensures RenderNode(opt, node, inScope, rendered).Failed? <==> Trouble(opt, SitesAt(node, inScope))
    decreases node
  {
    if node.Child? && !node.e.excluded {
      FailsIff(opt, node.e, inScope, rendered);
    }
  }

  /** A whole call fails exactly when some element in it asks for a prefix that is undeclared or bound to a relative URI. */
  lemma CanonicalizationFailsIff(opt: Options, e: Element, context: Namespaces)
    ensures Canonicalize(opt, e, context).Failed? <==>
      exists s, p :: s in Sites(e, map["xml" := XML] + context) && Unusable(opt, s.0, s.1, p)
  {
    hide Render, Sites, Unusable;
    FailsIff(opt, e, map["xml" := XML] + context, map["xml" := XML]);
  }

  // ----- _render_element as it runs -----

  function Tag(prefix: string, local: string): string {
    if prefix == "" then local else prefix + ":" + local
  }

  function DeclarationText(d: Declaration): string {
    " " + (if d.0 == "" then "xmlns" else "xmlns:" + d.0) + "=\"" + EscapeAttribute(d.1) + "\""
  }

  function AttributeText(a: Attribute): string {
    " " + Tag(a.prefix, a.local) + "=\"" + EscapeAttribute(a.value) + "\""
  }

  function Joined<T>(items: seq<T>, f: T -> string): string {
    if items == [] then "" else Joined(items[..|items| - 1], f) + f(items[|items| - 1])
  }

  function Serialize(o: Output): string
    decreases o, 1
  {
    "<" + Tag(o.prefix, o.local) + Joined(o.declarations, DeclarationText) + Joined(o.attributes, AttributeText) + ">"
    + SerializeNodes(o.children) + "</" + Tag(o.prefix, o.local) + ">"
  }

  function SerializeNodes(nodes: seq<OutputNode>): string
    decreases nodes
  {
    if nodes == [] then "" else SerializeNode(nodes[0]) + SerializeNodes(nodes[1..])
  }

  function SerializeNode(node: OutputNode): string
    decreases node
  {
    match node
    case OutChild(o) => Serialize(o)
    case OutText(text) => EscapeText(text)
    case OutInstruction(name, data) => "<?" + name + (if data == "" then "" else " " + data) + "?>"
  }

  lemma {:induction false} SerializeConcat(a: seq<OutputNode>, b: seq<OutputNode>)
    ensures SerializeNodes(a + b) == SerializeNodes(a) + SerializeNodes(b)
  {
    hide SerializeNode;
    if a == [] {
      assert a + b == b;
    } else {
      SerializeConcat(a[1..], b);
      assert (a + b)[1..] == a[1..] + b;
    }
  }

  function SerializeRendering(r: Rendering<Output>): Rendering<string> {
    if r.Failed? then Failed else Rendered(Serialize(r.value))
  }

  /** The scan of the attributes for visible prefixes. */
  method VisiblePrefixes(e: Element) returns (visible: set<string>)
    ensures visible == Visible(e)
  {
    visible := {e.prefix};
    for i := 0 to |e.attributes|
      invariant visible == {e.prefix} + set a | a in e.attributes[..i] && a.prefix != "" && a.prefix != "xml" :: a.prefix
    {
      var a := e.attributes[i];
      assert e.attributes[..i + 1] == e.attributes[..i] + [a];
      if a.prefix != "" && a.prefix != "xml" {
        visible := visible + {a.prefix};
      }
    }
    assert e.attributes[..|e.attributes|] == e.attributes;
  }

  /** The loop over sorted(wanted). */
  method DeclareNamespaces(opt: Options, e: Element, inScope: Namespaces, rendered: Namespaces) returns (d: Declaring)
    ensures d == DeclarationsFor(opt, e, inScope, rendered)
  {
    var visible := VisiblePrefixes(e);
    var prefixes := SortStrings(visible + opt.inclusive);
    var declarations: seq<Declaration>, next := [], rendered;
    ghost var start := Declaring([], rendered);
    for i := 0 to |prefixes|
      invariant Declaring(declarations, next) == DeclareAll(opt, inScope, visible, start, prefixes[..i])
    {
      var prefix := prefixes[i];
      DeclareAllStep(opt, inScope, visible, start, prefixes, i);
      if prefix == "xml" || (prefix !in inScope && prefix !in visible) {
        continue;
      }
      var uri := Lookup(inScope, prefix);
      if !ValidNamespace(opt, prefix, uri) {
        RefusalStays(opt, inScope, visible, start, prefixes, i + 1, |prefixes|);
        assert prefixes[..|prefixes|] == prefixes;
        return Refused;
      }
      if prefix in next && next[prefix] == uri {
        continue;
      }
      if prefix == "" && uri == "" && "" !in next {
        continue;
      }
      declarations, next := declarations + [(prefix, uri)], next[prefix := uri];
    }
    assert prefixes[..|prefixes|] == prefixes;
    return Declaring(declarations, next);
  }

  lemma DeclareAllStep(opt: Options, inScope: Namespaces, visible: set<string>, d: Declaring, prefixes: seq<string>, i: nat)
    requires i < |prefixes|
    ensures DeclareAll(opt, inScope, visible, d, prefixes[..i + 1]) ==
      Declare(opt, inScope, visible, DeclareAll(opt, inScope, visible, d, prefixes[..i]), prefixes[i])
  {
    assert prefixes[..i + 1][..i] == prefixes[..i];
  }

  lemma {:induction false} RefusalStays(opt: Options, inScope: Namespaces, visible: set<string>, d: Declaring, prefixes: seq<string>, i: nat, k: nat)
    requires i <= k <= |prefixes| && DeclareAll(opt, inScope, visible, d, prefixes[..i]).Refused?
    ensures DeclareAll(opt, inScope, visible, d, prefixes[..k]).Refused?
    decreases k
  {
    if i < k {
      RefusalStays(opt, inScope, visible, d, prefixes, i, k - 1);
      DeclareAllStep(opt, inScope, visible, d, prefixes, k - 1);
    }
  }

  ghost function ChildrenText(r: Rendering<seq<OutputNode>>): Rendering<string> {
    if r.Failed? then Failed else Rendered(SerializeNodes(r.value))
  }

  function Follow(text: string, r: Rendering<string>): Rendering<string> {
    if r.Failed? then Failed else Rendered(text + r.value)
  }

  lemma ChildStep(opt: Options, nodes: seq<Node>, i: nat, inScope: Namespaces, rendered: Namespaces)
    requires i < |nodes|
    ensures var first := RenderNode(opt, nodes[i], inScope, rendered);
      ChildrenText(RenderChildren(opt, nodes[i..], inScope, rendered)) ==
        if first.Failed? then Failed
        else Follow(SerializeNodes(first.value), ChildrenText(RenderChildren(opt, nodes[i + 1..], inScope, rendered)))
  {
    hide RenderNode, SerializeNodes;
    assert nodes[i..][1..] == nodes[i + 1..];
    var first := RenderNode(opt, nodes[i], inScope, rendered);
    var rest := RenderChildren(opt, nodes[i + 1..], inScope, rendered);
    if first.Rendered? && rest.Rendered? {
      SerializeConcat(first.value, rest.value);
    }
  }

  /** The loop over the child nodes. */
  method RenderNodes(opt: Options, nodes: seq<Node>, inScope: Namespaces, rendered: Namespaces) returns (r: Rendering<string>)
    ensures r == ChildrenText(RenderChildren(opt, nodes, inScope, rendered))
    decreases nodes
  {
    hide RenderChildren, RenderNode, SerializeNodes;
    var text := "";
    ghost var whole := ChildrenText(RenderChildren(opt, nodes, inScope, rendered));
    assert nodes[0..] == nodes && (whole.Rendered? ==> "" + whole.value == whole.value);
    for i := 0 to |nodes|
      invariant whole == Follow(text, ChildrenText(RenderChildren(opt, nodes[i..], inScope, rendered)))
    {
      ChildStep(opt, nodes, i, inScope, rendered);
      var part, failed := RenderOne(opt, nodes[i], inScope, rendered);
      if failed {
        return Failed;
      }
      FollowTwice(text, part, ChildrenText(RenderChildren(opt, nodes[i + 1..], inScope, rendered)));
      text := text + part;
    }
    NoChildren(opt, inScope, rendered);
    assert nodes[|nodes|..] == [] && text + "" == text;
    return Rendered(text);
  }

  lemma FollowTwice(a: string, b: string, r: Rendering<string>)
    ensures Follow(a, Follow(b, r)) == Follow(a + b, r)
  {
    if r.Rendered? {
      assert a + (b + r.value) == a + b + r.value;
    }
  }

  lemma NoChildren(opt: Options, inScope: Namespaces, rendered: Namespaces)
    ensures ChildrenText(RenderChildren(opt, [], inScope, rendered)) == Rendered("")
  {
  }

  method RenderOne(opt: Options, node: Node, inScope: Namespaces, rendered: Namespaces) returns (text: string, failed: bool)
    ensures var out := RenderNode(opt, node, inScope, rendered);
      failed == out.Failed? && (!failed ==> text == SerializeNodes(out.value))
    decreases node
  {
    hide Render, Serialize, EscapeText;
    match node
    case Child(e) =>
      if e.excluded {
        return "", false;
      }
      var child := RenderElement(opt, e, inScope, rendered);
      if child.Failed? {
        return "", true;
      }
      One(OutChild(Render(opt, e, inScope, rendered).value));
      return child.value, false;
    case Text(t) =>
      One(OutText(t));
      return EscapeText(t), false;
    case Instruction(name, data) =>
      One(OutInstruction(name, data));
      return "<?" + name + (if data == "" then "" else " " + data) + "?>", false;
    case Comment(t) => return "", false;
  }

  lemma One(node: OutputNode)
    ensures SerializeNodes([node]) == SerializeNode(node)
  {
    assert SerializeNodes([node][1..]) == "";
  }

  /** parts.append for each declaration or attribute. */
  method Write<T>(items: seq<T>, f: T -> string) returns (text: string)
    ensures text == Joined(items, f)
  {
    text := "";
    for i := 0 to |items|
      invariant text == Joined(items[..i], f)
    {
      assert items[..i + 1][..i] == items[..i];
      text := text + f(items[i]);
    }
    assert items[..|items|] == items;
  }

  /** _render_element. */
  method RenderElement(opt: Options, e: Element, inherited: Namespaces, rendered: Namespaces) returns (r: Rendering<string>)
    ensures r == SerializeRendering(Render(opt, e, inherited, rendered))
    decreases e, 1
  {
    hide DeclarationsFor, RenderChildren, SerializeNodes, SortAttributes, Visible, Joined, Tag;
    var inScope := InScope(e, inherited);
    var d := DeclareNamespaces(opt, e, inScope, rendered);
    if d.Refused? {
      return Failed;
    }
    var start := Write(d.declarations, DeclarationText);
    var written := Write(SortAttributes(inScope, e.attributes), AttributeText);
    var children := RenderNodes(opt, e.children, inScope, d.rendered);
    if children.Failed? {
      return Failed;
    }
    return Rendered("<" + Tag(e.prefix, e.local) + start + written + ">" + children.value + "</" + Tag(e.prefix, e.local) + ">");
  }

  /** exclusive_canonicalize. */
  method ExclusiveCanonicalize(opt: Options, e: Element, context: Namespaces) returns (r: Rendering<string>)
    ensures r == SerializeRendering(Canonicalize(opt, e, context))
  {
    hide Render;
    r := RenderElement(opt, e, map["xml" := XML] + context, map["xml" := XML]);
  }
}

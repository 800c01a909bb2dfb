/**
 * uk.gov.nationalarchives.droid.xmlReader.SAXModelBuilder: a SAX handler that builds a tree
 * of SimpleElement objects.
 *
 * A start tag whose name resolves creates an element (of the class with that name in the
 * object package if there is one, else a plain SimpleElement), gives it its resolved
 * attributes and pushes it; character data goes to the element on top of the stack; an end
 * tag pops the top element, completes it and attaches it to the new top through the first
 * matching `add`/`set` method. The last popped element is the model.
 *
 * Reflection is abstracted: which classes exist, which methods a class has, and what
 * `SimpleElement.getText()` returns are parameters. An element is a value recording the
 * calls made on it in order; since only the element on top of the stack is ever changed
 * and a popped element is never changed again, this value view loses nothing.
 */
module SAXModelBuilderModule {
  import opened Wrappers

  const DEFAULT_OBJECT_PACKAGE: string := "uk.gov.nationalarchives.droid.signatureFile"
  const STRING_CLASS: string := "java.lang.String"
  const SIMPLE_ELEMENT_CLASS: string := "uk.gov.nationalarchives.droid.xmlReader.SimpleElement"

  /** What the calls on an element pass: the child element or its text. */
  datatype Arg = ElementArg(element: Element) | TextArg(text: string)

  /** A call made on a SimpleElement, as the builder makes them. */
  datatype Call =
    | SetAttributeValue(name: string, value: string)
    | SetText(text: string)
    | CompleteElementContent
    | Invoke(methodName: string, arg: Arg)

  datatype Element = Element(className: string, calls: seq<Call>)

  /** One attribute as SAX reports it: URI, local name, qualified name and value. */
  datatype Attribute = Attribute(uri: string, localName: string, qName: string, value: string)

  /**
   * The reflective environment: whether `Class.forName(name).newInstance()` yields a
   * SimpleElement, whether class `c` has a public method `m` with one parameter of class
   * `p`, and `SimpleElement.getText()`.
   */
  datatype Config = Config(classes: string -> bool,
                           methods: (string, string, string) -> bool,
                           getText: Element -> string)

  /** The namespace fields. */
  datatype Names = Names(namespace: string, useNamespace: bool, allowGlobalNamespace: bool)

  /** The builder's fields: the element stack (top last), the last popped element, the object package, the namespace settings. */
  datatype BState = BState(stack: seq<Element>, element: Option<Element>, objectPackage: string, names: Names)

  function Initial(): BState
  {
    BState([], None, DEFAULT_OBJECT_PACKAGE, Names("", false, true))
  }

  /** `handleNameNS`: the local name in the configured namespace, the qualified name in the global one, else ignored. */
  function HandleNameNS(names: Names, uri: string, localname: string, qname: string): (r: Option<string>)
    ensures r.Some? ==> r.value == localname || r.value == qname
  {
    if names.useNamespace && names.namespace == uri then Some(localname)
    else if names.allowGlobalNamespace && uri == "" then Some(qname)
    else None
  }

  /** The class instantiated for an element name: one in the object package, or SimpleElement. */
  function ClassFor(cfg: Config, objectPackage: string, name: string): string
  {
    if cfg.classes(objectPackage + "." + name) then objectPackage + "." + name else SIMPLE_ELEMENT_CLASS
  }

  /** The `setAttributeValue` calls for the attributes whose names resolve, in order. */
  function AttributeCalls(names: Names, atts: seq<Attribute>): seq<Call>
  {
    if atts == [] then []
    else
      var rest := AttributeCalls(names, atts[..|atts| - 1]);
      var a := atts[|atts| - 1];
      match HandleNameNS(names, a.uri, a.localName, a.qName)
      case None => rest
      case Some(n) => rest + [SetAttributeValue(n, a.value)]
  }

  function NewElement(cfg: Config, objectPackage: string, names: Names, name: string, atts: seq<Attribute>): Element
  {
    Element(ClassFor(cfg, objectPackage, name), AttributeCalls(names, atts))
  }

  function AddCall(e: Element, c: Call): Element
  {
    e.(calls := e.calls + [c])
  }

  datatype Setter = AddByClass | SetByClass | AddString | SetString

  /** The method `setProperty` settles on: `addX(value class)`, `setX(value class)`, `addX(String)`, `setX(String)`. */
  function FindSetter(cfg: Config, target: string, name: string, valueClass: string): Option<Setter>
  {
    if cfg.methods(target, "add" + name, valueClass) then Some(AddByClass)
    else if cfg.methods(target, "set" + name, valueClass) then Some(SetByClass)
    else if cfg.methods(target, "add" + name, STRING_CLASS) then Some(AddString)
    else if cfg.methods(target, "set" + name, STRING_CLASS) then Some(SetString)
    else None
  }

  /** `setProperty(name, target, value)`: the call made on `target`; none (only a warning) when no method fits. */
  function SetProperty(cfg: Config, name: string, target: Element, value: Element): Element
  {
    match FindSetter(cfg, target.className, name, value.className)
    case None => target
    case Some(AddByClass) => AddCall(target, Invoke("add" + name, ElementArg(value)))
    case Some(SetByClass) => AddCall(target, Invoke("set" + name, ElementArg(value)))
    case Some(AddString) => AddCall(target, Invoke("add" + name, TextArg(cfg.getText(value))))
    case Some(SetString) => AddCall(target, Invoke("set" + name, TextArg(cfg.getText(value))))
  }

  /** The stack after a popped `child` is attached to the element now on top, if any. */
  function Attach(cfg: Config, stack: seq<Element>, name: string, child: Element): seq<Element>
  {
    if stack == [] then [] else stack[..|stack| - 1] + [SetProperty(cfg, name, stack[|stack| - 1], child)]
  }

  function StartStep(cfg: Config, b: BState, uri: string, localname: string, qname: string,
                     atts: seq<Attribute>): BState
  {
    match HandleNameNS(b.names, uri, localname, qname)
    case None => b
    case Some(name) => b.(stack := b.stack + [NewElement(cfg, b.objectPackage, b.names, name, atts)])
  }

  /** `endElement`: popping an empty stack is an EmptyStackException. */
  function EndStep(cfg: Config, b: BState, uri: string, localname: string, qname: string): Result<BState>
  {
    match HandleNameNS(b.names, uri, localname, qname)
    case None => Ok(b)
    case Some(name) =>
      if b.stack == [] then Err(EmptyStack)
      else
        var top := AddCall(b.stack[|b.stack| - 1], CompleteElementContent);
        Ok(b.(element := Some(top), stack := Attach(cfg, b.stack[..|b.stack| - 1], name, top)))
  }

  function CharactersStep(b: BState, text: string): BState
  {
    if b.stack == [] then b
    else b.(stack := b.stack[..|b.stack| - 1] + [AddCall(b.stack[|b.stack| - 1], SetText(text))])
  }

  /** The SAX callbacks the builder handles. */
  datatype Event =
    | Start(uri: string, localname: string, qname: string, atts: seq<Attribute>)
    | End(uri: string, localname: string, qname: string)
    | Chars(text: string)

  function Apply(cfg: Config, b: BState, ev: Event): Result<BState>
  {
    match ev
    case Start(u, l, q, atts) => Ok(StartStep(cfg, b, u, l, q, atts))
    case End(u, l, q) => EndStep(cfg, b, u, l, q)
    case Chars(t) => Ok(CharactersStep(b, t))
  }

  /** A parse: the callbacks in order, stopping at the first exception. */
  function Run(cfg: Config, b: BState, evs: seq<Event>): Result<BState>
    decreases |evs|
  {
    if evs == [] then Ok(b)
    else
      match Apply(cfg, b, evs[0])
      case Err(e) => Err(e)
      case Ok(b1) => Run(cfg, b1, evs[1..])
  }

  /** An XML element as the parser sees it: its name parts, attributes and content in order. */
  datatype Node = Node(uri: string, localname: string, qname: string, atts: seq<Attribute>, content: seq<Content>)
  datatype Content = Text(text: string) | Child(node: Node)

  /** The callbacks the parser makes for a node. */
  function NodeEvents(n: Node): seq<Event>
    decreases n, |n.content| + 1
  {
    [Start(n.uri, n.localname, n.qname, n.atts)] + ContentEvents(n, 0) + [End(n.uri, n.localname, n.qname)]
  }

  function ContentEvents(n: Node, i: nat): seq<Event>
    decreases n, |n.content| - i
  {
    if i >= |n.content| then []
    else
      (match n.content[i]
       case Text(t) => [Chars(t)]
       case Child(c) => NodeEvents(c))
      + ContentEvents(n, i + 1)
  }

  /** Every element of the node resolves to a name. */
  predicate NodeAccepted(names: Names, n: Node)
    decreases n, |n.content| + 1
  {
    HandleNameNS(names, n.uri, n.localname, n.qname).Some? && ContentAccepted(names, n, 0)
  }

  predicate ContentAccepted(names: Names, n: Node, i: nat)
    decreases n, |n.content| - i
  {
    i >= |n.content|
    || ((match n.content[i]
         case Text(_) => true
         case Child(c) => NodeAccepted(names, c))
        && ContentAccepted(names, n, i + 1))
  }

  /** The completed element the builder makes for an accepted node. */
  function Built(cfg: Config, objectPackage: string, names: Names, n: Node): Element
    requires NodeAccepted(names, n)
    decreases n, |n.content| + 1
  {
    var name := HandleNameNS(names, n.uri, n.localname, n.qname).value;
    AddCall(Fill(cfg, objectPackage, names, n, NewElement(cfg, objectPackage, names, name, n.atts), 0),
            CompleteElementContent)
  }

  /** `e` after the content of `n` from index `i` on: texts set, children attached. */
  function Fill(cfg: Config, objectPackage: string, names: Names, n: Node, e: Element, i: nat): Element
    requires ContentAccepted(names, n, i)
    decreases n, |n.content| - i
  {
    if i >= |n.content| then e
    else
      match n.content[i]
      case Text(t) => Fill(cfg, objectPackage, names, n, AddCall(e, SetText(t)), i + 1)
      case Child(c) =>
        var child := Built(cfg, objectPackage, names, c);
        var name := HandleNameNS(names, c.uri, c.localname, c.qname).value;
        Fill(cfg, objectPackage, names, n, SetProperty(cfg, name, e, child), i + 1)
  }

  /** `handleNameNS` under the default settings and after `setupNamespace`. */
  lemma HandleNameNSSettings(uri: string, localname: string, qname: string, ns: string, allow: bool)
    ensures HandleNameNS(Initial().names, uri, localname, qname) == (if uri == "" then Some(qname) else None)
    ensures HandleNameNS(Names(ns, true, allow), ns, localname, qname) == Some(localname)
    ensures uri != ns && uri != "" ==> HandleNameNS(Names(ns, true, allow), uri, localname, qname) == None
    ensures uri != ns ==> HandleNameNS(Names(ns, true, false), uri, localname, qname) == None
  {
  }

  /** Each `setAttributeValue` call comes from an attribute whose name resolves, in order, with its value. */
  lemma {:induction false} AttributeCallsFromAttributes(names: Names, atts: seq<Attribute>)
    ensures var calls := AttributeCalls(names, atts);
      |calls| <= |atts|
      && forall k :: 0 <= k < |calls| ==>
           calls[k].SetAttributeValue?
           && exists j :: 0 <= j < |atts|
                && HandleNameNS(names, atts[j].uri, atts[j].localName, atts[j].qName) == Some(calls[k].name)
                && atts[j].value == calls[k].value
    ensures (forall j :: 0 <= j < |atts| ==> HandleNameNS(names, atts[j].uri, atts[j].localName, atts[j].qName).None?)
            ==> AttributeCalls(names, atts) == []
  {
    if atts != [] {
      var init := atts[..|atts| - 1];
      AttributeCallsFromAttributes(names, init);
      var calls := AttributeCalls(names, atts);
      var rest := AttributeCalls(names, init);
      forall k | 0 <= k < |calls|
        ensures calls[k].SetAttributeValue?
        ensures exists j :: (0 <= j < |atts|
                  && HandleNameNS(names, atts[j].uri, atts[j].localName, atts[j].qName) == Some(calls[k].name)
                  && atts[j].value == calls[k].value)
      {
        if k < |rest| {
          var j :| 0 <= j < |init|
                && HandleNameNS(names, init[j].uri, init[j].localName, init[j].qName) == Some(rest[k].name)
                && init[j].value == rest[k].value;
          assert atts[j] == init[j];
        } else {
          var last := |atts| - 1;
          assert HandleNameNS(names, atts[last].uri, atts[last].localName, atts[last].qName) == Some(calls[k].name);
        }
      }
      if forall j :: 0 <= j < |atts| ==> HandleNameNS(names, atts[j].uri, atts[j].localName, atts[j].qName).None? {
        assert forall j :: 0 <= j < |init| ==> init[j] == atts[j];
      }
    }
  }

  /** `setProperty` takes the first of `addX(value class)`, `setX(value class)`, `addX(String)`, `setX(String)` that exists. */
  lemma SetPropertyOrder(cfg: Config, name: string, target: Element, value: Element)
    ensures var t := target.className;
      var v := value.className;
      var r := SetProperty(cfg, name, target, value);
      (cfg.methods(t, "add" + name, v) ==> r.calls == target.calls + [Invoke("add" + name, ElementArg(value))])
      && (!cfg.methods(t, "add" + name, v) && cfg.methods(t, "set" + name, v) ==>
            r.calls == target.calls + [Invoke("set" + name, ElementArg(value))])
      && (!cfg.methods(t, "add" + name, v) && !cfg.methods(t, "set" + name, v)
          && cfg.methods(t, "add" + name, STRING_CLASS) ==>
            r.calls == target.calls + [Invoke("add" + name, TextArg(cfg.getText(value)))])
      && (!cfg.methods(t, "add" + name, v) && !cfg.methods(t, "set" + name, v)
          && !cfg.methods(t, "add" + name, STRING_CLASS) && cfg.methods(t, "set" + name, STRING_CLASS) ==>
            r.calls == target.calls + [Invoke("set" + name, TextArg(cfg.getText(value)))])
      && (FindSetter(cfg, t, name, v).None? ==> r == target)
      && r.className == target.className
      && |r.calls| <= |target.calls| + 1
  {
  }

  /**
   * An accepted start pushes exactly one element, an accepted end pops one element, completes
   * it, makes it the model and attaches it to the new top; ignored tags and character data
   * outside any element leave the state as it is.
   */
  lemma StackDiscipline(cfg: Config, b: BState, uri: string, localname: string, qname: string,
                        atts: seq<Attribute>, text: string)
    ensures var name := HandleNameNS(b.names, uri, localname, qname);
      var s := StartStep(cfg, b, uri, localname, qname, atts);
      var e := EndStep(cfg, b, uri, localname, qname);
      (name.None? ==> s == b && e == Ok(b))
      && (name.Some? ==> |s.stack| == |b.stack| + 1 && s.stack[..|b.stack|] == b.stack
                         && s.element == b.element)
      && (name.Some? && b.stack == [] ==> e == Err(EmptyStack))
      && (name.Some? && b.stack != [] ==>
            var top := AddCall(b.stack[|b.stack| - 1], CompleteElementContent);
            e.Ok? && e.value.element == Some(top) && |e.value.stack| == |b.stack| - 1
            && (|b.stack| >= 2 ==>
                  e.value.stack[..|b.stack| - 2] == b.stack[..|b.stack| - 2]
                  && e.value.stack[|b.stack| - 2] == SetProperty(cfg, name.value, b.stack[|b.stack| - 2], top)))
      && (b.stack == [] ==> CharactersStep(b, text) == b)
      && (b.stack != [] ==>
            |CharactersStep(b, text).stack| == |b.stack|
            && CharactersStep(b, text).stack[|b.stack| - 1].calls == b.stack[|b.stack| - 1].calls + [SetText(text)])
  {
    if HandleNameNS(b.names, uri, localname, qname).Some? && b.stack != [] && |b.stack| >= 2 {
      var rest := b.stack[..|b.stack| - 1];
      assert rest[..|rest| - 1] == b.stack[..|b.stack| - 2];
    }
  }

  /** Running a concatenation is running its halves in turn. */
  lemma {:induction false} RunAppend(cfg: Config, b: BState, xs: seq<Event>, ys: seq<Event>)
    ensures Run(cfg, b, xs + ys) == (match Run(cfg, b, xs) case Err(e) => Err(e) case Ok(b1) => Run(cfg, b1, ys))
    decreases |xs|
  {
    if xs == [] {
      assert xs + ys == ys;
    } else {
      assert (xs + ys)[0] == xs[0];
      assert (xs + ys)[1..] == xs[1..] + ys;
      match Apply(cfg, b, xs[0])
      case Err(e) =>
      case Ok(b1) => RunAppend(cfg, b1, xs[1..], ys);
    }
  }

  /**
   * The callbacks of an accepted node never fail, leave the stack as it was except that the
   * node's element is attached to its top, and make that element the model.
   */
  lemma {:induction false} NodeRun(cfg: Config, b: BState, n: Node)
    requires NodeAccepted(b.names, n)
    ensures var built := Built(cfg, b.objectPackage, b.names, n);
      var name := HandleNameNS(b.names, n.uri, n.localname, n.qname).value;
      Run(cfg, b, NodeEvents(n)) == Ok(b.(stack := Attach(cfg, b.stack, name, built), element := Some(built)))
    decreases n, |n.content| + 1
  {
    var name := HandleNameNS(b.names, n.uri, n.localname, n.qname).value;
    var e0 := NewElement(cfg, b.objectPackage, b.names, name, n.atts);
    var start := [Start(n.uri, n.localname, n.qname, n.atts)];
    var end := [End(n.uri, n.localname, n.qname)];
    var b1 := b.(stack := b.stack + [e0]);
    assert Run(cfg, b, start) == Ok(b1);
    ContentRun(cfg, b1, n, 0, e0);
    var b2 := Run(cfg, b1, ContentEvents(n, 0)).value;
    assert b2.stack[..|b2.stack| - 1] == b.stack;
    RunAppend(cfg, b, start, ContentEvents(n, 0));
    RunAppend(cfg, b, start + ContentEvents(n, 0), end);
  }

  /** The content callbacks fill the element on top of the stack as `Fill` says, below it nothing changes. */
  lemma {:induction false} ContentRun(cfg: Config, b: BState, n: Node, i: nat, e: Element)
    requires ContentAccepted(b.names, n, i)
    requires b.stack != [] && b.stack[|b.stack| - 1] == e
    ensures var r := Run(cfg, b, ContentEvents(n, i));
      r.Ok? && r.value.objectPackage == b.objectPackage && r.value.names == b.names
      && r.value.stack == b.stack[..|b.stack| - 1] + [Fill(cfg, b.objectPackage, b.names, n, e, i)]
    decreases n, |n.content| - i
  {
    var below := b.stack[..|b.stack| - 1];
    if i >= |n.content| {
      assert b.stack == below + [e];
    } else {
      var tail := ContentEvents(n, i + 1);
      match n.content[i]
      case Text(t) =>
        var e1 := AddCall(e, SetText(t));
        var b1 := b.(stack := below + [e1]);
        assert Run(cfg, b, [Chars(t)]) == Ok(b1);
        RunAppend(cfg, b, [Chars(t)], tail);
        ContentRun(cfg, b1, n, i + 1, e1);
        assert (below + [e1])[..|below + [e1]| - 1] == below;
      case Child(c) =>
        NodeRun(cfg, b, c);
        var name := HandleNameNS(b.names, c.uri, c.localname, c.qname).value;
        var built := Built(cfg, b.objectPackage, b.names, c);
        var e1 := SetProperty(cfg, name, e, built);
        var b1 := b.(stack := Attach(cfg, b.stack, name, built), element := Some(built));
        assert b1.stack == below + [e1];
        RunAppend(cfg, b, NodeEvents(c), tail);
        ContentRun(cfg, b1, n, i + 1, e1);
        assert (below + [e1])[..|below + [e1]| - 1] == below;
    }
  }

  /** Parsing a document whose elements all resolve leaves an empty stack, and `getModel` returns its root. */
  lemma ParseDocument(cfg: Config, objectPackage: string, names: Names, root: Node)
    requires NodeAccepted(names, root)
    ensures Run(cfg, BState([], None, objectPackage, names), NodeEvents(root))
            == Ok(BState([], Some(Built(cfg, objectPackage, names, root)), objectPackage, names))
  {
    NodeRun(cfg, BState([], None, objectPackage, names), root);
  }

  class SAXModelBuilder {
    var stack: seq<Element>
    var element: Option<Element>
    var myObjectPackage: string
    var namespace: string
    var useNamespace: bool
    var allowGlobalNamespace: bool
    const cfg: Config

    function State(): BState
      reads this
    {
      BState(stack, element, myObjectPackage, Names(namespace, useNamespace, allowGlobalNamespace))
    }

    constructor (cfg: Config)
      ensures State() == Initial() && this.cfg == cfg
    {
      stack, element := [], None;
      myObjectPackage := DEFAULT_OBJECT_PACKAGE;
      namespace, useNamespace, allowGlobalNamespace := "", false, true;
      this.cfg := cfg;
    }

    method SetObjectPackage(theObjectPackage: string)
      modifies this
      ensures State() == old(State()).(objectPackage := theObjectPackage)
    {
      myObjectPackage := theObjectPackage;
    }

    /** `setupNamespace`: a null namespace is an IllegalArgumentException. */
    method SetupNamespace(ns: Option<string>, allowGlobal: bool) returns (r: Outcome)
      modifies this
      ensures ns.None? ==> r == Fail(IllegalArgument) && State() == old(State())
      ensures ns.Some? ==> r == Done && State() == old(State()).(names := Names(ns.value, true, allowGlobal))
    {
      if ns.None? {
        return Fail(IllegalArgument);
      }
      namespace := ns.value;
      useNamespace := true;
      allowGlobalNamespace := allowGlobal;
      r := Done;
    }

    method StartElement(uri: string, localname: string, qname: string, atts: seq<Attribute>)
      modifies this
      ensures State() == StartStep(cfg, old(State()), uri, localname, qname, atts)
    {
      var names := Names(namespace, useNamespace, allowGlobalNamespace);
      var elementName := HandleNameNS(names, uri, localname, qname);
      if elementName.None? {
        return;
      }
      var calls: seq<Call> := [];
      for i := 0 to |atts|
        invariant calls == AttributeCalls(names, atts[..i])
      {
        assert atts[..i + 1][..i] == atts[..i];
        var attributeName := HandleNameNS(names, atts[i].uri, atts[i].localName, atts[i].qName);
        if attributeName.None? {
          continue;
        }
        calls := calls + [SetAttributeValue(attributeName.value, atts[i].value)];
      }
      assert atts[..|atts|] == atts;
      stack := stack + [Element(ClassFor(cfg, myObjectPackage, elementName.value), calls)];
    }

    method EndElement(uri: string, localname: string, qname: string) returns (r: Outcome)
      modifies this
      ensures var e := EndStep(cfg, old(State()), uri, localname, qname);
        (e.Err? ==> r == Fail(e.error) && State() == old(State()))
        && (e.Ok? ==> r == Done && State() == e.value)
    {
      var elementName := HandleNameNS(Names(namespace, useNamespace, allowGlobalNamespace), uri, localname, qname);
      if elementName.None? {
        return Done;
      }
      if stack == [] {
        return Fail(EmptyStack);
      }
      var top := AddCall(stack[|stack| - 1], CompleteElementContent);
      element := Some(top);
      stack := stack[..|stack| - 1];
      if stack != [] {
        stack := stack[..|stack| - 1] + [SetProperty(cfg, elementName.value, stack[|stack| - 1], top)];
      }
      r := Done;
    }

    method Characters(text: string)
      modifies this
      ensures State() == CharactersStep(old(State()), text)
    {
      if stack != [] {
        stack := stack[..|stack| - 1] + [AddCall(stack[|stack| - 1], SetText(text))];
      }
    }

    /** `getModel()`: the element popped last. */
    function GetModel(): Option<Element>
      reads this
    {
      element
    }
  }
}

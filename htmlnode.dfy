/**
 * The HTML node tree and its serialiser (`src/htmlnode.py`).
 *
 * The three Python classes become the three constructors of one datatype.
 * A children list in Python may hold any object; `NotANode` stands for an
 * entry that is not an HTML node.
 */
module HtmlNodes {
  import opened Wrappers
  import opened Strings

  /** A dict's keys are distinct. */
  predicate UniqueKeys(props: seq<(string, string)>) {
    forall i, j :: 0 <= i < j < |props| ==> props[i].0 != props[j].0
  }

  /** A `dict[str, str]` of attributes, in insertion order. */
  type Props = p: seq<(string, string)> | UniqueKeys(p)

  datatype HtmlNode =
    | BaseNode(tag: Option<string>, value: Option<string>, children: Children, props: Option<Props>)
    | LeafNode(tag: Option<string>, value: Option<string>, props: Option<Props>)
    | ParentNode(tag: Option<string>, children: Children, props: Option<Props>)

  /** The `children` field: `None` or a list. (An `Option<seq<Child>>` in all but
      name; a datatype of its own lets Dafny see that each child is smaller than
      its parent.) */
  datatype Children = NoChildren | ChildList(items: seq<Child>)

  /** An entry of a children list. */
  datatype Child = Node(node: HtmlNode) | NotANode

  /** The exceptions `to_html` raises. */
  datatype HtmlError =
    | NotImplemented    // `NotImplementedError` of the base class
    | MissingValue      // `ValueError`: leaf without a value
    | MissingTag        // `ValueError`: parent without a tag
    | MissingChildren   // `ValueError`: parent without children
    | InvalidChildType  // `TypeError`: a child that is not a node

  /** One attribute as `key="value"`. */
  function Attribute(kv: (string, string)): string {
    kv.0 + "=\"" + kv.1 + "\""
  }

  /** The list comprehension in `props_to_html`. */
  function Attributes(props: seq<(string, string)>): (r: seq<string>)
    ensures |r| == |props|
  {
    if props == [] then [] else [Attribute(props[0])] + Attributes(props[1..])
  }

  /** Every attribute preceded by one space, in order. */
  function SpacedAttributes(props: seq<(string, string)>): string {
    if props == [] then "" else " " + Attribute(props[0]) + SpacedAttributes(props[1..])
  }

  lemma {:induction false} JoinAttributes(props: seq<(string, string)>)
    requires props != []
    ensures " " + Join(Attributes(props), " ") == SpacedAttributes(props)
    decreases |props|
  {
    var rest := props[1..];
    var first := Attribute(props[0]);
    assert Attributes(props) == [first] + Attributes(rest);
    assert SpacedAttributes(props) == " " + first + SpacedAttributes(rest);
    if rest == [] {
      assert Attributes(props) == [first];
      assert Join([first], " ") == first;
    } else {
      JoinAttributes(rest);
      var tail := Attributes(rest);
      assert ([first] + tail)[1..] == tail;
      assert Join([first] + tail, " ") == first + " " + Join(tail, " ");
    }
  }

  /** `props_to_html`: empty without attributes, otherwise each one after a space. */
  function PropsToHtml(props: Option<Props>): (r: string)
    ensures props.None? || props.value == [] ==> r == ""
    ensures props.Some? && props.value != [] ==> r == SpacedAttributes(props.value) && r[0] == ' '
  {
    if props.None? || props.value == [] then ""
    else
      JoinAttributes(props.value);
      " " + Join(Attributes(props.value), " ")
  }

  function OpenTag(tag: string, props: Option<Props>): string {
    "<" + tag + PropsToHtml(props) + ">"
  }

  function CloseTag(tag: string): string {
    "</" + tag + ">"
  }

  predicate AllNodes(cs: seq<Child>) {
    forall i :: 0 <= i < |cs| ==> cs[i].Node?
  }

  /** The nodes in a parent's children list are smaller than the parent. */
  lemma ChildrenBelow(n: HtmlNode)
    requires n.ParentNode? && n.children.ChildList?
    ensures forall i :: 0 <= i < |n.children.items| && n.children.items[i].Node? ==>
              n.children.items[i].node < n
  {
    var cs := n.children.items;
    forall i | 0 <= i < |cs| && cs[i].Node?
      ensures cs[i].node < n
    {
      assert cs[i] in cs;
    }
  }

  /** `to_html` of each class. */
  function ToHtml(n: HtmlNode): Result<string, HtmlError>
    decreases n, 1
  {
    match n
    case BaseNode(_, _, _, _) => Err(NotImplemented)
    case LeafNode(tag, value, props) => LeafToHtml(tag, value, props)
    case ParentNode(tag, children, props) =>
      match ParentCheck(tag, children)
      case Some(e) => Err(e)
      case None =>
        ChildrenBelow(n);
        match ChildrenHtml(n, children.items)
        case Err(e) => Err(e)
        case Ok(inner) => Ok(OpenTag(tag.value, props) + inner + CloseTag(tag.value))
  }

  /** The checks `ParentNode.to_html` makes, in order, before it renders any child:
      the error of the first that fails, if any. */
  function ParentCheck(tag: Option<string>, children: Children): (r: Option<HtmlError>)
    ensures r.None? <==> tag.Some? && tag.value != "" && children.ChildList? && children.items != []
                         && AllNodes(children.items)
  {
    if tag.None? || tag.value == "" then Some(MissingTag)
    else if children.NoChildren? || children.items == [] then Some(MissingChildren)
    else if !AllNodes(children.items) then Some(InvalidChildType)
    else None
  }

  /** The children rendered left to right; the first child that fails stops the rendering. */
  function ChildrenHtml(ghost parent: HtmlNode, cs: seq<Child>): Result<string, HtmlError>
    requires forall i :: 0 <= i < |cs| && cs[i].Node? ==> cs[i].node < parent
    decreases parent, 0, |cs|
  {
    if cs == [] then Ok("")
    else
      match ChildrenHtml(parent, cs[..|cs| - 1])
      case Err(e) => Err(e)
      case Ok(done) =>
        match cs[|cs| - 1]
        case NotANode => Err(InvalidChildType)
        case Node(child) =>
          match ToHtml(child)
          case Err(e) => Err(e)
          case Ok(html) => Ok(done + html)
  }

  /** `LeafNode.to_html`: a leaf needs a value; without a tag it is its value alone,
      whatever its attributes; with one (even `""`) the value is wrapped in it. */
  function LeafToHtml(tag: Option<string>, value: Option<string>, props: Option<Props>): (r: Result<string, HtmlError>)
    ensures r.Err? <==> value.None?
    ensures r.Err? ==> r.error == MissingValue
    ensures value.Some? && tag.None? ==> r == Ok(value.value)
    ensures value.Some? && tag.Some? ==>
              r == Ok("<" + tag.value + PropsToHtml(props) + ">" + value.value + "</" + tag.value + ">")
  {
    if value.None? then Err(MissingValue)
    else if tag.None? then Ok(value.value)
    else Ok("<" + tag.value + PropsToHtml(props) + ">" + value.value + "</" + tag.value + ">")
  }

  /** `to_html`, dispatched on the class of the node. */
  method RenderHtml(n: HtmlNode) returns (r: Result<string, HtmlError>)
    ensures r == ToHtml(n)
    decreases n, 2
  {
    match n
    case BaseNode(_, _, _, _) =>
      r := Err(NotImplemented);
    case LeafNode(tag, value, props) =>
      r := LeafToHtml(tag, value, props);
    case ParentNode(_, _, _) =>
      r := ParentToHtml(n);
  }

  /** `ParentNode.to_html`: three checks, then the children between the two tags. */
  method ParentToHtml(n: HtmlNode) returns (r: Result<string, HtmlError>)
    requires n.ParentNode?
    ensures r == ToHtml(n)
    decreases n, 1
  {
    var failed := ParentCheck(n.tag, n.children);
    if failed.Some? {
      return Err(failed.value);
    }
    ChildrenBelow(n);
    var inner := RenderChildren(n, n.children.items);
    if inner.Err? {
      return Err(inner.error);
    }
    return Ok(OpenTag(n.tag.value, n.props) + inner.value + CloseTag(n.tag.value));
  }

  /** The loop of `ParentNode.to_html` that appends each child's html in turn. */
  method RenderChildren(ghost parent: HtmlNode, cs: seq<Child>) returns (r: Result<string, HtmlError>)
    requires forall i :: 0 <= i < |cs| && cs[i].Node? ==> cs[i].node < parent
    requires AllNodes(cs)
    ensures r == ChildrenHtml(parent, cs)
    decreases parent, 0
  {
    var result := "";
    for i := 0 to |cs|
      invariant ChildrenHtml(parent, cs[..i]) == Ok(result)
    {
      var html := RenderHtml(cs[i].node);
      ChildStep(parent, cs, i);
      if html.Err? {
        ChildErrorStops(parent, cs, i + 1);
        return Err(html.error);
      }
      result := result + html.value;
    }
    assert cs[..|cs|] == cs;
    return Ok(result);
  }

  /** One more child: the html so far, then that child's. */
  lemma ChildStep(parent: HtmlNode, cs: seq<Child>, i: nat)
    requires forall i :: 0 <= i < |cs| && cs[i].Node? ==> cs[i].node < parent
    requires i < |cs| && cs[i].Node? && ChildrenHtml(parent, cs[..i]).Ok?
    ensures ToHtml(cs[i].node).Err? ==> ChildrenHtml(parent, cs[..i + 1]) == Err(ToHtml(cs[i].node).error)
    ensures ToHtml(cs[i].node).Ok? ==>
              ChildrenHtml(parent, cs[..i + 1]) == Ok(ChildrenHtml(parent, cs[..i]).value + ToHtml(cs[i].node).value)
  {
    assert cs[..i + 1][..i] == cs[..i];
  }

  /** Once a prefix of the children fails, the whole list fails the same way. */
  lemma {:induction false} ChildErrorStops(parent: HtmlNode, cs: seq<Child>, k: nat)
    requires forall i :: 0 <= i < |cs| && cs[i].Node? ==> cs[i].node < parent
    requires k <= |cs| && ChildrenHtml(parent, cs[..k]).Err?
    ensures ChildrenHtml(parent, cs) == ChildrenHtml(parent, cs[..k])
    decreases |cs| - k
  {
    if k < |cs| {
      assert cs[..k + 1][..k] == cs[..k];
      ChildErrorStops(parent, cs, k + 1);
    } else {
      assert cs[..k] == cs;
    }
  }

  /** The success condition of `to_html`, stated on the tree: every leaf has a value,
      every parent a non-empty tag and a non-empty list of children that are all nodes,
      and there is no base node. */
  predicate Renderable(n: HtmlNode)
    decreases n
  {
    match n
    case BaseNode(_, _, _, _) => false
    case LeafNode(_, value, _) => value.Some?
    case ParentNode(tag, children, _) =>
      && tag.Some? && tag.value != ""
      && children.ChildList? && children.items != []
      && (forall i :: 0 <= i < |children.items| ==>
            children.items[i].Node? && Renderable(children.items[i].node))
  }

  /** `to_html` succeeds exactly on renderable trees. */
  lemma {:induction false} RenderableIff(n: HtmlNode)
    ensures ToHtml(n).Ok? <==> Renderable(n)
    decreases n
  {
    match n
    case BaseNode(_, _, _, _) =>
    case LeafNode(_, _, _) =>
    case ParentNode(tag, children, _) =>
      if tag.Some? && tag.value != "" && children.ChildList? && children.items != []
         && AllNodes(children.items) {
        var cs := children.items;
        ChildrenBelow(n);
        ChildrenOkIff(n, cs);
        forall i | 0 <= i < |cs|
          ensures ToHtml(cs[i].node).Ok? <==> Renderable(cs[i].node)
        {
          RenderableIff(cs[i].node);
        }
      }
  }

  /** The last child: the html of the others, then its own. */
  lemma ChildrenSnoc(parent: HtmlNode, cs: seq<Child>)
    requires forall i :: 0 <= i < |cs| && cs[i].Node? ==> cs[i].node < parent
    requires cs != [] && AllNodes(cs)
    ensures ChildrenHtml(parent, cs)
            == match ChildrenHtml(parent, cs[..|cs| - 1])
               case Err(e) => Err(e)
               case Ok(done) =>
                 match ToHtml(cs[|cs| - 1].node)
                 case Err(e) => Err(e)
                 case Ok(html) => Ok(done + html)
  {
  }

  /** The children render exactly when each of them does. */
  lemma {:induction false} ChildrenOkIff(parent: HtmlNode, cs: seq<Child>)
    requires forall i :: 0 <= i < |cs| && cs[i].Node? ==> cs[i].node < parent
    requires AllNodes(cs)
    ensures ChildrenHtml(parent, cs).Ok? <==> forall i :: 0 <= i < |cs| ==> ToHtml(cs[i].node).Ok?
    decreases |cs|
  {
    if cs != [] {
      var last := |cs| - 1;
      var init := cs[..last];
      assert forall i :: 0 <= i < |init| ==> init[i] == cs[i];
      ChildrenOkIff(parent, init);
      ChildrenSnocOk(parent, cs);
      AllButLast(cs, init, (c: Child) => c.Node? && ToHtml(c.node).Ok?);
    }
  }

  lemma ChildrenSnocOk(parent: HtmlNode, cs: seq<Child>)
    requires forall i :: 0 <= i < |cs| && cs[i].Node? ==> cs[i].node < parent
    requires cs != [] && AllNodes(cs)
    ensures ChildrenHtml(parent, cs).Ok?
            <==> ChildrenHtml(parent, cs[..|cs| - 1]).Ok? && ToHtml(cs[|cs| - 1].node).Ok?
  {
    ChildrenSnoc(parent, cs);
  }

  /** Child `k` is the first child whose rendering fails. */
  predicate FirstFailure(cs: seq<Child>, k: int)
    requires AllNodes(cs)
  {
    0 <= k < |cs| && ToHtml(cs[k].node).Err? && forall j :: 0 <= j < k ==> ToHtml(cs[j].node).Ok?
  }

  /** The children fail with the error of the first child that fails. */
  lemma ChildrenFirstError(parent: HtmlNode, cs: seq<Child>)
    requires forall i :: 0 <= i < |cs| && cs[i].Node? ==> cs[i].node < parent
    requires AllNodes(cs)
    ensures ChildrenHtml(parent, cs).Err? ==>
              exists k :: FirstFailure(cs, k) && ToHtml(cs[k].node).error == ChildrenHtml(parent, cs).error
    ensures forall k :: FirstFailure(cs, k) ==> ChildrenHtml(parent, cs) == Err(ToHtml(cs[k].node).error)
  {
    ChildrenSomeFailure(parent, cs);
    forall k | FirstFailure(cs, k)
      ensures ChildrenHtml(parent, cs) == Err(ToHtml(cs[k].node).error)
    {
      FirstFailureWins(parent, cs, k);
    }
  }

  /** The first child that fails decides the error. */
  lemma FirstFailureWins(parent: HtmlNode, cs: seq<Child>, k: int)
    requires forall i :: 0 <= i < |cs| && cs[i].Node? ==> cs[i].node < parent
    requires AllNodes(cs) && FirstFailure(cs, k)
    ensures ChildrenHtml(parent, cs) == Err(ToHtml(cs[k].node).error)
  {
    var before := cs[..k];
    forall i | 0 <= i < |before|
      ensures before[i].Node? && ToHtml(before[i].node).Ok?
    {
      assert before[i] == cs[i];
    }
    ChildrenOkIff(parent, before);
    ChildStep(parent, cs, k);
    ChildErrorStops(parent, cs, k + 1);
  }

  /** Failing children have a first failing child, whose error is theirs. */
  lemma {:induction false} ChildrenSomeFailure(parent: HtmlNode, cs: seq<Child>)
    requires forall i :: 0 <= i < |cs| && cs[i].Node? ==> cs[i].node < parent
    requires AllNodes(cs)
    ensures ChildrenHtml(parent, cs).Err? ==>
              exists k :: FirstFailure(cs, k) && ToHtml(cs[k].node).error == ChildrenHtml(parent, cs).error
    decreases |cs|
  {
    if cs != [] {
      var last := |cs| - 1;
      var init := cs[..last];
      assert forall i :: 0 <= i < |init| ==> init[i] == cs[i];
      ChildrenSnoc(parent, cs);
      if ChildrenHtml(parent, cs).Err? {
        if ChildrenHtml(parent, init).Err? {
          ChildrenSomeFailure(parent, init);
          var k :| FirstFailure(init, k) && ToHtml(init[k].node).error == ChildrenHtml(parent, init).error;
          assert FirstFailure(cs, k);
        } else {
          ChildrenOkIff(parent, init);
          assert FirstFailure(cs, last);
        }
      }
    }
  }

  /** How a parent fails, in the order of the checks: its tag, then its children list,
      then the type of every child (before any child is rendered), and only then the
      first child whose own rendering fails. */
  lemma ParentError(n: HtmlNode, e: HtmlError)
    requires n.ParentNode?
    ensures ToHtml(n) == Err(e) <==>
      if n.tag.None? || n.tag.value == "" then e == MissingTag
      else if n.children.NoChildren? || n.children.items == [] then e == MissingChildren
      else if !AllNodes(n.children.items) then e == InvalidChildType
      else exists k :: FirstFailure(n.children.items, k) && ToHtml(n.children.items[k].node) == Err(e)
  {
    if n.tag.Some? && n.tag.value != "" && n.children.ChildList? && n.children.items != []
       && AllNodes(n.children.items) {
      ChildrenBelow(n);
      ChildrenFirstError(n, n.children.items);
    }
  }

  // ----- the text of a rendered tree -----

  /** The text a browser would show: the output with every `<...>` removed. */
  function StripTags(s: string): string
    decreases |s|
  {
    if s == [] then ""
    else if s[0] == '<' then StripTags(AfterTag(s[1..]))
    else [s[0]] + StripTags(s[1..])
  }

  /** What follows the first `>` (nothing, when there is none). */
  function AfterTag(s: string): (r: string)
    ensures |r| <= |s|
  {
    if s == [] then ""
    else if s[0] == '>' then s[1..]
    else AfterTag(s[1..])
  }

  /** The values of the leaves in document order. */
  function TextContent(n: HtmlNode): string
    decreases n, 1
  {
    match n
    case BaseNode(_, _, _, _) => ""
    case LeafNode(_, value, _) => if value.Some? then value.value else ""
    case ParentNode(_, children, _) =>
      if children.NoChildren? then ""
      else
        ChildrenBelow(n);
        ChildrenText(n, children.items)
  }

  function ChildrenText(ghost parent: HtmlNode, cs: seq<Child>): string
    requires forall i :: 0 <= i < |cs| && cs[i].Node? ==> cs[i].node < parent
    decreases parent, 0, |cs|
  {
    if cs == [] then ""
    else
      var last := cs[|cs| - 1];
      ChildrenText(parent, cs[..|cs| - 1]) + if last.Node? then TextContent(last.node) else ""
  }

  /** No attribute contains `>`. */
  predicate CleanProps(props: Option<Props>) {
    props.Some? ==> forall i :: 0 <= i < |props.value| ==>
                      Avoids(props.value[i].0, '>') && Avoids(props.value[i].1, '>')
  }

  /** Markup cannot be mistaken for text and text cannot open markup: no tag or
      attribute contains `>`, and no value contains `<`. */
  predicate Clean(n: HtmlNode)
    decreases n
  {
    match n
    case BaseNode(_, _, _, _) => true
    case LeafNode(tag, value, props) =>
      && (tag.Some? ==> Avoids(tag.value, '>'))
      && (value.Some? ==> Avoids(value.value, '<'))
      && CleanProps(props)
    case ParentNode(tag, children, props) =>
      && (tag.Some? ==> Avoids(tag.value, '>'))
      && CleanProps(props)
      && (children.ChildList? ==>
            forall i :: 0 <= i < |children.items| && children.items[i].Node? ==>
              Clean(children.items[i].node))
  }

  /** Attributes without `>` render without `>`. */
  lemma {:induction false} AttributesAvoid(props: seq<(string, string)>)
    requires forall i :: 0 <= i < |props| ==> Avoids(props[i].0, '>') && Avoids(props[i].1, '>')
    ensures Avoids(SpacedAttributes(props), '>')
    decreases |props|
  {
    if props != [] {
      var kv := props[0];
      AttributesAvoid(props[1..]);
      AvoidsAppend(kv.0, "=\"", '>');
      AvoidsAppend(kv.0 + "=\"", kv.1, '>');
      AvoidsAppend(kv.0 + "=\"" + kv.1, "\"", '>');
      AvoidsAppend(" ", Attribute(kv), '>');
      AvoidsAppend(" " + Attribute(kv), SpacedAttributes(props[1..]), '>');
    }
  }

  /** Text without `<` survives the stripping unchanged. */
  lemma {:induction false} StripText(v: string, rest: string)
    requires Avoids(v, '<')
    ensures StripTags(v + rest) == v + StripTags(rest)
    decreases |v|
  {
    if v != [] {
      assert (v + rest)[1..] == v[1..] + rest;
      StripText(v[1..], rest);
      HeadTail(v);
    } else {
      assert v + rest == rest;
    }
  }

  lemma {:induction false} AfterTagSkips(inside: string, rest: string)
    requires Avoids(inside, '>')
    ensures AfterTag(inside + (">" + rest)) == rest
    decreases |inside|
  {
    if inside != [] {
      assert (inside + (">" + rest))[1..] == inside[1..] + (">" + rest);
      AfterTagSkips(inside[1..], rest);
    } else {
      assert inside + (">" + rest) == ">" + rest;
    }
  }

  /** A tag whose inside has no `>` disappears entirely. */
  lemma StripTag(inside: string, rest: string)
    requires Avoids(inside, '>')
    ensures StripTags("<" + inside + ">" + rest) == StripTags(rest)
  {
    var s := "<" + inside + ">" + rest;
    assert s[1..] == inside + (">" + rest);
    AfterTagSkips(inside, rest);
  }

  lemma OpenTagStrips(tag: string, props: Option<Props>, rest: string)
    requires Avoids(tag, '>') && CleanProps(props)
    ensures StripTags(OpenTag(tag, props) + rest) == StripTags(rest)
  {
    var attrs := PropsToHtml(props);
    if props.Some? && props.value != [] {
      AttributesAvoid(props.value);
    }
    AvoidsAppend(tag, attrs, '>');
    assert OpenTag(tag, props) + rest == "<" + (tag + attrs) + ">" + rest;
    StripTag(tag + attrs, rest);
  }

  lemma CloseTagStrips(tag: string, rest: string)
    requires Avoids(tag, '>')
    ensures StripTags(CloseTag(tag) + rest) == StripTags(rest)
  {
    AvoidsAppend("/", tag, '>');
    assert CloseTag(tag) + rest == "<" + ("/" + tag) + ">" + rest;
    StripTag("/" + tag, rest);
  }

  /** Rendering adds only markup: stripping the tags from the html of a clean tree
      leaves the values of its leaves, in order. */
  lemma {:induction false} StripRendered(n: HtmlNode, rest: string)
    requires Clean(n) && ToHtml(n).Ok?
    ensures StripTags(ToHtml(n).value + rest) == TextContent(n) + StripTags(rest)
    decreases n, 1
  {
    match n
    case BaseNode(_, _, _, _) =>
    case LeafNode(tag, value, props) =>
      StripLeaf(tag, value.value, props, rest);
    case ParentNode(tag, children, props) =>
      ChildrenBelow(n);
      var cs := children.items;
      var inner := ChildrenHtml(n, cs).value;
      assert TextContent(n) == ChildrenText(n, cs);
      assert ToHtml(n).value == OpenTag(tag.value, props) + inner + CloseTag(tag.value);
      StripChildren(n, cs, CloseTag(tag.value) + rest);
      StripWrapped(tag.value, props, inner, ChildrenText(n, cs), rest);
  }

  lemma StripLeaf(tag: Option<string>, v: string, props: Option<Props>, rest: string)
    requires Avoids(v, '<') && CleanProps(props) && (tag.Some? ==> Avoids(tag.value, '>'))
    ensures StripTags(LeafToHtml(tag, Some(v), props).value + rest) == v + StripTags(rest)
  {
    if tag.None? {
      StripText(v, rest);
    } else {
      var t := tag.value;
      assert LeafToHtml(tag, Some(v), props).value == OpenTag(t, props) + v + CloseTag(t);
      StripText(v, CloseTag(t) + rest);
      StripWrapped(t, props, v, v, rest);
    }
  }

  /** Content between an opening and a closing tag keeps its stripped text. */
  lemma StripWrapped(t: string, props: Option<Props>, inner: string, text: string, rest: string)
    requires Avoids(t, '>') && CleanProps(props)
    requires StripTags(inner + (CloseTag(t) + rest)) == text + StripTags(CloseTag(t) + rest)
    ensures StripTags(OpenTag(t, props) + inner + CloseTag(t) + rest) == text + StripTags(rest)
  {
    OpenTagStrips(t, props, inner + (CloseTag(t) + rest));
    CloseTagStrips(t, rest);
    StripAround(OpenTag(t, props), CloseTag(t), inner, text, rest);
  }

  /** Markup `o` and `c` around `inner` leave the stripped text of `inner`. */
  lemma StripAround(o: string, c: string, inner: string, text: string, rest: string)
    requires StripTags(o + (inner + (c + rest))) == StripTags(inner + (c + rest))
    requires StripTags(inner + (c + rest)) == text + StripTags(c + rest)
    requires StripTags(c + rest) == StripTags(rest)
    ensures StripTags(o + inner + c + rest) == text + StripTags(rest)
  {
    AppendAssoc(o + inner, c, rest);
    AppendAssoc(o, inner, c + rest);
  }

  lemma {:induction false} StripChildren(parent: HtmlNode, cs: seq<Child>, rest: string)
    requires forall i :: 0 <= i < |cs| && cs[i].Node? ==> cs[i].node < parent
    requires AllNodes(cs) && ChildrenHtml(parent, cs).Ok?
    requires forall i :: 0 <= i < |cs| ==> Clean(cs[i].node)
    ensures StripTags(ChildrenHtml(parent, cs).value + rest) == ChildrenText(parent, cs) + StripTags(rest)
    decreases parent, 0, |cs|
  {
    if cs == [] {
      assert "" + rest == rest;
    } else {
      var init, last := cs[..|cs| - 1], cs[|cs| - 1].node;
      assert forall i :: 0 <= i < |init| ==> init[i] == cs[i];
      ChildrenSnoc(parent, cs);
      assert ChildrenHtml(parent, init).Ok? && ToHtml(last).Ok?;
      var done, html := ChildrenHtml(parent, init).value, ToHtml(last).value;
      assert ChildrenHtml(parent, cs).value == done + html;
      StripChildren(parent, init, html + rest);
      StripRendered(last, rest);
      assert ChildrenText(parent, cs) == ChildrenText(parent, init) + TextContent(last);
      StripStep(done, html, rest, ChildrenText(parent, init), TextContent(last));
    }
  }

  lemma StripStep(done: string, html: string, rest: string, a: string, b: string)
    requires StripTags(done + (html + rest)) == a + StripTags(html + rest)
    requires StripTags(html + rest) == b + StripTags(rest)
    ensures StripTags(done + html + rest) == a + b + StripTags(rest)
  {
    assert done + html + rest == done + (html + rest);
  }

  /** A parent with a single child: the child's html between the parent's tags, or the
      child's error. */
  lemma SingleChild(t: string, props: Option<Props>, child: HtmlNode)
    requires t != ""
    ensures ToHtml(ParentNode(Some(t), ChildList([Node(child)]), props))
            == match ToHtml(child)
               case Err(e) => Err(e)
               case Ok(html) => Ok(OpenTag(t, props) + html + CloseTag(t))
  {
    var n := ParentNode(Some(t), ChildList([Node(child)]), props);
    assert [Node(child)][..0] == [];
    ChildrenBelow(n);
    assert ChildrenHtml(n, [Node(child)]) == match ToHtml(child) case Err(e) => Err(e) case Ok(html) => Ok("" + html);
    assert forall h: string :: "" + h == h;
  }

  /** The base class never renders; a leaf fails only without a value, and without a
      tag it is its value alone. */
  lemma BaseAndLeaf(n: HtmlNode)
    ensures n.BaseNode? ==> ToHtml(n) == Err(NotImplemented)
    ensures n.LeafNode? ==> (ToHtml(n) == Err(MissingValue) <==> n.value.None?)
    ensures n.LeafNode? && n.value.Some? && n.tag.None? ==> ToHtml(n) == Ok(n.value.value)
  {
  }

  /** The checks of a parent, and an error deep in the tree reaching the root. */
  lemma ParentErrorExamples(child: HtmlNode)
    ensures ToHtml(ParentNode(Some(""), ChildList([Node(child)]), None)) == Err(MissingTag)
    ensures ToHtml(ParentNode(None, ChildList([Node(child)]), None)) == Err(MissingTag)
    ensures ToHtml(ParentNode(Some("div"), ChildList([]), None)) == Err(MissingChildren)
    ensures ToHtml(ParentNode(Some("div"), NoChildren, None)) == Err(MissingChildren)
    ensures ToHtml(ParentNode(Some("div"), ChildList([NotANode]), None)) == Err(InvalidChildType)
    ensures ToHtml(ParentNode(Some("div"), ChildList([Node(ParentNode(Some("span"), ChildList([]), None))]), None))
            == Err(MissingChildren)
  {
    SingleChild("div", None, ParentNode(Some("span"), ChildList([]), None));
  }

  /** Two attributes in insertion order, each after one space. */
  lemma TwoProps(k1: string, v1: string, k2: string, v2: string)
    requires k1 != k2
    ensures PropsToHtml(Some([(k1, v1), (k2, v2)]))
            == " " + k1 + "=\"" + v1 + "\"" + " " + k2 + "=\"" + v2 + "\""
  {
    var p: seq<(string, string)> := [(k1, v1), (k2, v2)];
    assert p[1..] == [(k2, v2)];
    assert p[1..][1..] == [];
    var a1, a2 := Attribute((k1, v1)), Attribute((k2, v2));
    assert SpacedAttributes(p[1..]) == " " + a2 + "";
    assert SpacedAttributes(p) == " " + a1 + (" " + a2 + "");
    assert " " + a1 + (" " + a2 + "") == " " + k1 + "=\"" + v1 + "\"" + " " + k2 + "=\"" + v2 + "\"";
  }
}

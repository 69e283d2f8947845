/**
 * Inline text nodes and the delimiter splitter (`src/textnode.py`).
 *
 * A `TextNode` is a piece of inline text with a type and an optional url.
 * `SplitNodesDelimiter` rewrites a list of nodes by cutting every plain
 * (`Text`) node at the occurrences of one delimiter, such as `**`.
 */
module TextNodes {
  import opened Wrappers
  import opened Strings

  datatype TextType = Bold | Text | Italic | Code | Link | Image

  /** The enum's `.value`. */
  function TypeValue(t: TextType): string {
    match t
    case Bold => "bold"
    case Text => "text"
    case Italic => "italic"
    case Code => "code"
    case Link => "link"
    case Image => "image"
  }

  datatype TextNode = TextNode(text: string, textType: TextType, url: Option<string>)

  /** The value `__eq__` is compared with: a text node or any other Python object. */
  datatype Object = TextNodeObject(node: TextNode) | OtherObject

  /** `TextNode.__eq__`: field-by-field equality with another object. */
  function Equals(self: TextNode, other: Object): (r: bool)
    ensures r <==> other == TextNodeObject(self)
  {
    if !other.TextNodeObject? then false
    else
      other.node.text == self.text
      && other.node.textType == self.textType
      && other.node.url == self.url
  }

  /** How an f-string shows the url: the string itself, or `None`. */
  function UrlText(url: Option<string>): string {
    match url
    case None => "None"
    case Some(u) => u
  }

  /** `TextNode.__repr__`. */
  function Repr(n: TextNode): (r: string)
    ensures StartsWith(r, "TextNode(") && EndsWith(r, ")")
    ensures |r| == 14 + |n.text| + |TypeValue(n.textType)| + |UrlText(n.url)|
    ensures r[9..9 + |n.text|] == n.text
    ensures r[9 + |n.text|..11 + |n.text| + |TypeValue(n.textType)|]
            == ", " + TypeValue(n.textType)
    ensures r[11 + |n.text| + |TypeValue(n.textType)|..|r| - 1] == ", " + UrlText(n.url)
  {
    var tv, url := TypeValue(n.textType), UrlText(n.url);
    var r := "TextNode(" + n.text + (", " + tv) + (", " + url + ")");
    Middle("TextNode(", n.text, (", " + tv) + (", " + url + ")"));
    Middle("TextNode(" + n.text, ", " + tv, ", " + url + ")");
    Middle("TextNode(" + n.text + (", " + tv), ", " + url, ")");
    r
  }

  /** The values of two different types differ in one of their first two characters. */
  lemma TypeValuesDiffer(a: TextType, b: TextType)
    requires a != b
    ensures |TypeValue(a)| >= 2 && |TypeValue(b)| >= 2
    ensures TypeValue(a)[0] != TypeValue(b)[0] || TypeValue(a)[1] != TypeValue(b)[1]
  {
  }

  /** Two nodes that differ only in their type have different reprs. */
  lemma ReprShowsType(a: TextNode, b: TextNode)
    requires a.text == b.text && a.url == b.url && a.textType != b.textType
    ensures Repr(a) != Repr(b)
  {
    var i := 11 + |a.text|;
    var va, vb := TypeValue(a.textType), TypeValue(b.textType);
    TypeValuesDiffer(a.textType, b.textType);
    var ra, rb := Repr(a), Repr(b);
    assert ra[9 + |a.text|..11 + |a.text| + |va|] == ", " + va;
    assert rb[9 + |a.text|..11 + |a.text| + |vb|] == ", " + vb;
    assert ra[i] == va[0] && ra[i + 1] == va[1];
    assert rb[i] == vb[0] && rb[i + 1] == vb[1];
  }

  /** A missing url and the url `"None"` print alike. */
  lemma ReprNoneUrl(text: string, t: TextType)
    ensures Repr(TextNode(text, t, None)) == Repr(TextNode(text, t, Some("None")))
  {
  }

  function Max0(n: int): nat {
    if n < 0 then 0 else n
  }

  /**
   * `point_to_error`: the input, a newline, then a line that puts
   * `length` carets under the input from column `errorIndex` on.
   * The source gives `length` the default value 1.
   */
  function PointToError(inputStr: string, errorIndex: int, length: int): (r: string)
    ensures |r| == |inputStr| + 1 + Max0(errorIndex) + Max0(length)
    ensures r[..|inputStr|] == inputStr && r[|inputStr|] == '\n'
    ensures forall k :: |inputStr| < k <= |inputStr| + Max0(errorIndex) ==> r[k] == ' '
    ensures forall k :: |inputStr| + Max0(errorIndex) < k < |r| ==> r[k] == '^'
  {
    inputStr + "\n" + Repeat(' ', errorIndex) + Repeat('^', length)
  }

  /** The `ValueError` raised for an odd number of delimiters. */
  datatype SplitError = UnclosedDelimiter(delimiter: string, text: string)

  function Message(e: SplitError): string {
    "Unclosed delimiter '" + e.delimiter + "' in: " + e.text
  }

  /** The node made of part `i` of a split: none for an empty part. */
  function PartNode(part: string, i: nat, textType: TextType): seq<TextNode> {
    if part == "" then []
    else if i % 2 == 0 then [TextNode(part, Text, None)]
    else [TextNode(part, textType, None)]
  }

  /** The nodes made of all the parts of one split, in order. */
  function PartsToNodes(parts: seq<string>, textType: TextType): (r: seq<TextNode>)
    ensures |r| <= |parts|
    ensures forall i :: 0 <= i < |r| ==> r[i].text != "" && r[i].url == None
  {
    if parts == [] then []
    else
      var i := |parts| - 1;
      PartsToNodes(parts[..i], textType) + PartNode(parts[i], i, textType)
  }

  /** A node whose delimiters do not pair up. */
  predicate Unbalanced(n: TextNode, delimiter: string)
    requires delimiter != ""
  {
    n.textType == Text && Count(n.text, delimiter) % 2 != 0
  }

  /** What one input node contributes to the output. */
  function SplitOne(n: TextNode, delimiter: string, textType: TextType): (r: Result<seq<TextNode>, SplitError>)
    requires delimiter != ""
    ensures r.Err? <==> Unbalanced(n, delimiter)
    ensures r.Err? ==> r.error == UnclosedDelimiter(delimiter, n.text)
  {
    if n.textType != Text then Ok([n])
    else
      var count := Count(n.text, delimiter);
      if count == 0 then Ok([n])
      else if count % 2 != 0 then Err(UnclosedDelimiter(delimiter, n.text))
      else Ok(PartsToNodes(Split(n.text, delimiter), textType))
  }

  /** The whole result: the first unbalanced node aborts the call. */
  function SplitAll(nodes: seq<TextNode>, delimiter: string, textType: TextType): (r: Result<seq<TextNode>, SplitError>)
    requires delimiter != ""
    ensures r.Ok? ==> forall i :: 0 <= i < |nodes| ==> !Unbalanced(nodes[i], delimiter)
  {
    if nodes == [] then Ok([])
    else
      var init := nodes[..|nodes| - 1];
      assert forall i :: 0 <= i < |init| ==> init[i] == nodes[i];
      match SplitAll(init, delimiter, textType)
      case Err(e) => Err(e)
      case Ok(done) =>
        match SplitOne(nodes[|nodes| - 1], delimiter, textType)
        case Err(e) => Err(e)
        case Ok(more) => Ok(done + more)
  }

  /** Two results in a row: the first error wins, otherwise the outputs are concatenated. */
  function Then(x: Result<seq<TextNode>, SplitError>, y: Result<seq<TextNode>, SplitError>): Result<seq<TextNode>, SplitError> {
    match x
    case Err(e) => Err(e)
    case Ok(a) =>
      match y
      case Err(e) => Err(e)
      case Ok(b) => Ok(a + b)
  }

  /** Splitting distributes over the concatenation of node lists, keeping their order. */
  lemma {:induction false} SplitAllAppend(a: seq<TextNode>, b: seq<TextNode>, delimiter: string, textType: TextType)
    requires delimiter != ""
    ensures SplitAll(a + b, delimiter, textType)
            == Then(SplitAll(a, delimiter, textType), SplitAll(b, delimiter, textType))
    decreases |b|
  {
    if b == [] {
      assert a + b == a;
      match SplitAll(a, delimiter, textType)
      case Err(_) =>
      case Ok(ra) => assert ra + [] == ra;
    } else {
      var init, x := b[..|b| - 1], b[|b| - 1];
      assert (a + b)[..|a + b| - 1] == a + init;
      assert (a + b)[|a + b| - 1] == x;
      SplitAllAppend(a, init, delimiter, textType);
      SplitAllSnoc(a + b, delimiter, textType);
      SplitAllSnoc(b, delimiter, textType);
      ThenAssoc(SplitAll(a, delimiter, textType), SplitAll(init, delimiter, textType),
                SplitOne(x, delimiter, textType));
    }
  }

  /** `SplitAll` of a non-empty list: its prefix, then its last node. */
  lemma SplitAllSnoc(nodes: seq<TextNode>, delimiter: string, textType: TextType)
    requires delimiter != "" && nodes != []
    ensures SplitAll(nodes, delimiter, textType)
            == Then(SplitAll(nodes[..|nodes| - 1], delimiter, textType),
                    SplitOne(nodes[|nodes| - 1], delimiter, textType))
  {
  }

  lemma ThenAssoc(x: Result<seq<TextNode>, SplitError>, y: Result<seq<TextNode>, SplitError>,
                  z: Result<seq<TextNode>, SplitError>)
    ensures Then(Then(x, y), z) == Then(x, Then(y, z))
  {
    if x.Ok? && y.Ok? && z.Ok? {
      assert x.value + y.value + z.value == x.value + (y.value + z.value);
    }
  }

  /** One more node that splits without error extends the result. */
  lemma SplitAllStep(nodes: seq<TextNode>, i: nat, delimiter: string, textType: TextType,
                     done: seq<TextNode>, more: seq<TextNode>)
    requires delimiter != "" && i < |nodes|
    requires SplitAll(nodes[..i], delimiter, textType) == Ok(done)
    requires SplitOne(nodes[i], delimiter, textType) == Ok(more)
    ensures SplitAll(nodes[..i + 1], delimiter, textType) == Ok(done + more)
  {
    assert nodes[..i + 1][..i] == nodes[..i];
  }

  /** An unbalanced node after an error-free prefix fails the whole call. */
  lemma SplitAllStepErr(nodes: seq<TextNode>, i: nat, delimiter: string, textType: TextType, done: seq<TextNode>)
    requires delimiter != "" && i < |nodes|
    requires SplitAll(nodes[..i], delimiter, textType) == Ok(done)
    requires Unbalanced(nodes[i], delimiter)
    ensures SplitAll(nodes, delimiter, textType) == Err(UnclosedDelimiter(delimiter, nodes[i].text))
  {
    assert nodes[..i + 1][..i] == nodes[..i];
    SplitAllAppend(nodes[..i + 1], nodes[i + 1..], delimiter, textType);
    assert nodes[..i + 1] + nodes[i + 1..] == nodes;
  }

  lemma PartsToNodesStep(parts: seq<string>, j: nat, textType: TextType)
    requires j < |parts|
    ensures PartsToNodes(parts[..j + 1], textType)
            == PartsToNodes(parts[..j], textType) + PartNode(parts[j], j, textType)
  {
    assert parts[..j + 1][..j] == parts[..j];
  }

  /** `split_nodes_delimiter`. Nodes in the result never carry a url unless passed
      through (`SplitAllUrls`). */
  method SplitNodesDelimiter(oldNodes: seq<TextNode>, delimiter: string, textType: TextType)
    returns (r: Result<seq<TextNode>, SplitError>)
    requires delimiter != ""
    ensures r == SplitAll(oldNodes, delimiter, textType)
  {
    var newNodes: seq<TextNode> := [];
    for i := 0 to |oldNodes|
      invariant SplitAll(oldNodes[..i], delimiter, textType) == Ok(newNodes)
    {
      var oldNode := oldNodes[i];
      if oldNode.textType != Text {
        SplitAllStep(oldNodes, i, delimiter, textType, newNodes, [oldNode]);
        newNodes := newNodes + [oldNode];
      } else {
        var nbDelimiters := Count(oldNode.text, delimiter);
        if nbDelimiters == 0 {
          SplitAllStep(oldNodes, i, delimiter, textType, newNodes, [oldNode]);
          newNodes := newNodes + [oldNode];
        } else if nbDelimiters % 2 != 0 {
          SplitAllStepErr(oldNodes, i, delimiter, textType, newNodes);
          return Err(UnclosedDelimiter(delimiter, oldNode.text));
        } else {
          var parts := Split(oldNode.text, delimiter);
          ghost var before := newNodes;
          newNodes := AppendParts(newNodes, parts, textType);
          SplitAllStep(oldNodes, i, delimiter, textType, before, PartsToNodes(parts, textType));
        }
      }
    }
    assert oldNodes[..|oldNodes|] == oldNodes;
    return Ok(newNodes);
  }

  /** The inner loop of `split_nodes_delimiter`: the non-empty parts of one split are
      appended in order, the even ones as plain text and the odd ones with `textType`. */
  method AppendParts(nodes: seq<TextNode>, parts: seq<string>, textType: TextType)
    returns (r: seq<TextNode>)
    ensures r == nodes + PartsToNodes(parts, textType)
  {
    r := nodes;
    for j := 0 to |parts|
      invariant r == nodes + PartsToNodes(parts[..j], textType)
    {
      PartsToNodesStep(parts, j, textType);
      var part := parts[j];
      if part != "" {
        if j % 2 == 0 {
          // outside the delimiter
          AppendAssoc(nodes, PartsToNodes(parts[..j], textType), [TextNode(part, Text, None)]);
          r := r + [TextNode(part, Text, None)];
        } else {
          // inside the delimiter
          AppendAssoc(nodes, PartsToNodes(parts[..j], textType), [TextNode(part, textType, None)]);
          r := r + [TextNode(part, textType, None)];
        }
      } else {
        assert PartsToNodes(parts[..j], textType) + [] == PartsToNodes(parts[..j], textType);
      }
    }
    assert parts[..|parts|] == parts;
  }

  /** The failure condition: the call fails exactly when some plain node is unbalanced, and
      then with the error of the first such node. */
  lemma SplitAllFails(nodes: seq<TextNode>, delimiter: string, textType: TextType)
    requires delimiter != ""
    ensures SplitAll(nodes, delimiter, textType).Err?
            <==> exists k :: 0 <= k < |nodes| && Unbalanced(nodes[k], delimiter)
    ensures SplitAll(nodes, delimiter, textType).Err? ==>
              exists k :: 0 <= k < |nodes| && Unbalanced(nodes[k], delimiter)
                && (forall j :: 0 <= j < k ==> !Unbalanced(nodes[j], delimiter))
                && SplitAll(nodes, delimiter, textType).error == UnclosedDelimiter(delimiter, nodes[k].text)
  {
    SplitAllFirstError(nodes, delimiter, textType);
    forall k | 0 <= k < |nodes| && Unbalanced(nodes[k], delimiter)
      ensures SplitAll(nodes, delimiter, textType).Err?
    {
      UnbalancedFails(nodes, k, delimiter, textType);
    }
  }

  /** One unbalanced node fails the whole call. */
  lemma UnbalancedFails(nodes: seq<TextNode>, k: nat, delimiter: string, textType: TextType)
    requires delimiter != "" && k < |nodes| && Unbalanced(nodes[k], delimiter)
    ensures SplitAll(nodes, delimiter, textType).Err?
  {
  }

  /** A failed call reports the first unbalanced node. */
  lemma {:induction false} SplitAllFirstError(nodes: seq<TextNode>, delimiter: string, textType: TextType)
    requires delimiter != ""
    ensures SplitAll(nodes, delimiter, textType).Err? ==>
              exists k :: 0 <= k < |nodes| && Unbalanced(nodes[k], delimiter)
                && (forall j :: 0 <= j < k ==> !Unbalanced(nodes[j], delimiter))
                && SplitAll(nodes, delimiter, textType).error == UnclosedDelimiter(delimiter, nodes[k].text)
    decreases |nodes|
  {
    if nodes != [] {
      var last := |nodes| - 1;
      var init := nodes[..last];
      SplitAllSnoc(nodes, delimiter, textType);
      if SplitAll(init, delimiter, textType).Err? {
        SplitAllFirstError(init, delimiter, textType);
        var k :| 0 <= k < |init| && Unbalanced(init[k], delimiter)
          && (forall j :: 0 <= j < k ==> !Unbalanced(init[j], delimiter))
          && SplitAll(init, delimiter, textType).error == UnclosedDelimiter(delimiter, init[k].text);
        assert forall j :: 0 <= j <= k ==> init[j] == nodes[j];
      } else if SplitOne(nodes[last], delimiter, textType).Err? {
        forall j | 0 <= j < last
          ensures !Unbalanced(nodes[j], delimiter)
        {
          assert init[j] == nodes[j];
        }
        assert Unbalanced(nodes[last], delimiter);
      }
    }
  }

  /** The `ValueError` of a failed call reads `Unclosed delimiter '<delimiter>' in: <text>`,
      with the text of the first unbalanced node. */
  lemma FailureMessage(nodes: seq<TextNode>, delimiter: string, textType: TextType)
    requires delimiter != "" && SplitAll(nodes, delimiter, textType).Err?
    ensures exists k :: 0 <= k < |nodes| && Unbalanced(nodes[k], delimiter)
              && (forall j :: 0 <= j < k ==> !Unbalanced(nodes[j], delimiter))
              && Message(SplitAll(nodes, delimiter, textType).error)
                 == "Unclosed delimiter '" + delimiter + "' in: " + nodes[k].text
  {
    SplitAllFirstError(nodes, delimiter, textType);
  }

  /** The only nodes of a result that carry a url are input nodes passed through. */
  lemma {:induction false} SplitAllUrls(nodes: seq<TextNode>, delimiter: string, textType: TextType)
    requires delimiter != "" && SplitAll(nodes, delimiter, textType).Ok?
    ensures forall m :: m in SplitAll(nodes, delimiter, textType).value && m.url.Some? ==> m in nodes
    decreases |nodes|
  {
    if nodes != [] {
      var last := |nodes| - 1;
      var init := nodes[..last];
      SplitAllSnoc(nodes, delimiter, textType);
      SplitAllUrls(init, delimiter, textType);
      var done := SplitAll(init, delimiter, textType).value;
      var more := SplitOne(nodes[last], delimiter, textType).value;
      assert SplitAll(nodes, delimiter, textType).value == done + more;
      assert forall m :: m in more && m.url.Some? ==> m == nodes[last];
      assert forall m :: m in init ==> m in nodes;
    }
  }

  /** A node the splitter leaves alone: not plain text, or free of the delimiter. */
  predicate Untouched(n: TextNode, delimiter: string)
    requires delimiter != ""
  {
    n.textType != Text || Count(n.text, delimiter) == 0
  }

  /** A list of untouched nodes comes back as it is, urls included. */
  lemma {:induction false} SplitAllUntouched(nodes: seq<TextNode>, delimiter: string, textType: TextType)
    requires delimiter != ""
    requires forall k :: 0 <= k < |nodes| ==> Untouched(nodes[k], delimiter)
    ensures SplitAll(nodes, delimiter, textType) == Ok(nodes)
    decreases |nodes|
  {
    if nodes != [] {
      var last := |nodes| - 1;
      SplitAllUntouched(nodes[..last], delimiter, textType);
      assert nodes[..last] + [nodes[last]] == nodes;
    }
  }

  /** An untouched node keeps its place: the output is what the nodes before it
      produce, the node itself, then what the nodes after it produce. */
  lemma SplitAllKeepsInPlace(nodes: seq<TextNode>, k: nat, delimiter: string, textType: TextType)
    requires delimiter != "" && k < |nodes| && Untouched(nodes[k], delimiter)
    requires SplitAll(nodes, delimiter, textType).Ok?
    ensures SplitAll(nodes[..k], delimiter, textType).Ok?
    ensures SplitAll(nodes[k + 1..], delimiter, textType).Ok?
    ensures SplitAll(nodes, delimiter, textType).value
            == SplitAll(nodes[..k], delimiter, textType).value + [nodes[k]]
               + SplitAll(nodes[k + 1..], delimiter, textType).value
  {
    var before, after := nodes[..k], nodes[k + 1..];
    assert nodes == before + [nodes[k]] + after;
    SplitAround(before, nodes[k], after, delimiter, textType);
  }

  /** `SplitAllKeepsInPlace` for a list given as its three pieces. */
  lemma SplitAround(before: seq<TextNode>, n: TextNode, after: seq<TextNode>, delimiter: string, textType: TextType)
    requires delimiter != "" && Untouched(n, delimiter)
    requires SplitAll(before + [n] + after, delimiter, textType).Ok?
    ensures SplitAll(before, delimiter, textType).Ok? && SplitAll(after, delimiter, textType).Ok?
    ensures SplitAll(before + [n] + after, delimiter, textType).value
            == SplitAll(before, delimiter, textType).value + [n] + SplitAll(after, delimiter, textType).value
  {
    AppendAssoc(before, [n], after);
    SplitAllAppend(before, [n] + after, delimiter, textType);
    SplitAllAppend([n], after, delimiter, textType);
    SplitAllUntouched([n], delimiter, textType);
    ThenAround(SplitAll(before, delimiter, textType), SplitAll([n] + after, delimiter, textType),
               SplitAll(after, delimiter, textType), n);
  }

  /** A successful `x` then (`n` then `y`) is `x`, `n` and `y` in that order. */
  lemma ThenAround(x: Result<seq<TextNode>, SplitError>, m: Result<seq<TextNode>, SplitError>,
                   y: Result<seq<TextNode>, SplitError>, n: TextNode)
    requires m == Then(Ok([n]), y) && Then(x, m).Ok?
    ensures x.Ok? && y.Ok? && Then(x, m).value == x.value + [n] + y.value
  {
    AppendAssoc(x.value, [n], y.value);
  }

  /** The texts of a list of nodes, concatenated. */
  function Texts(nodes: seq<TextNode>): string {
    if nodes == [] then "" else Texts(nodes[..|nodes| - 1]) + nodes[|nodes| - 1].text
  }

  /** What the text of a node should become: plain text loses its delimiters. */
  function Stripped(n: TextNode, delimiter: string): string
    requires delimiter != ""
  {
    if n.textType == Text then RemoveAll(n.text, delimiter) else n.text
  }

  /** The concatenation of `Stripped` over a list of nodes. */
  function StrippedTexts(nodes: seq<TextNode>, delimiter: string): string
    requires delimiter != ""
  {
    if nodes == [] then ""
    else StrippedTexts(nodes[..|nodes| - 1], delimiter) + Stripped(nodes[|nodes| - 1], delimiter)
  }

  lemma {:induction false} TextsAppend(a: seq<TextNode>, b: seq<TextNode>)
    ensures Texts(a + b) == Texts(a) + Texts(b)
    decreases |b|
  {
    if b == [] {
      assert a + b == a;
    } else {
      var last := |b| - 1;
      TextsAppend(a, b[..last]);
      assert (a + b)[..|a + b| - 1] == a + b[..last];
      assert (a + b)[|a + b| - 1] == b[last];
      calc {
        Texts(a + b);
        Texts(a + b[..last]) + b[last].text;
        Texts(a) + Texts(b[..last]) + b[last].text;
        Texts(a) + (Texts(b[..last]) + b[last].text);
      }
    }
  }

  /** Dropping empty parts loses no text. */
  lemma {:induction false} PartsTexts(parts: seq<string>, textType: TextType)
    ensures Texts(PartsToNodes(parts, textType)) == Concat(parts)
    decreases |parts|
  {
    if parts != [] {
      var last := |parts| - 1;
      var init := parts[..last];
      var done := PartsToNodes(init, textType);
      var extra := PartNode(parts[last], last, textType);
      assert PartsToNodes(parts, textType) == done + extra;
      assert Texts(done) == Concat(init) by {
        PartsTexts(init, textType);
      }
      assert Texts(extra) == parts[last] by {
        if extra != [] {
          assert extra[..0] == [];
        }
      }
      TextsAppend(done, extra);
      ConcatSnoc(parts);
    }
  }

  /** Text conservation for one node. */
  lemma SplitOneTexts(n: TextNode, delimiter: string, textType: TextType)
    requires delimiter != "" && SplitOne(n, delimiter, textType).Ok?
    ensures Texts(SplitOne(n, delimiter, textType).value) == Stripped(n, delimiter)
  {
    assert Texts([n]) == Texts([]) + n.text;
    if n.textType == Text {
      if Count(n.text, delimiter) == 0 {
        RemoveAllAbsent(n.text, delimiter);
      } else {
        PartsTexts(Split(n.text, delimiter), textType);
        ConcatSplit(n.text, delimiter);
      }
    }
  }

  /** Text conservation: the output, read as text, is the input with the delimiters
      deleted from its plain nodes. */
  lemma {:induction false} SplitAllTexts(nodes: seq<TextNode>, delimiter: string, textType: TextType)
    requires delimiter != "" && SplitAll(nodes, delimiter, textType).Ok?
    ensures Texts(SplitAll(nodes, delimiter, textType).value) == StrippedTexts(nodes, delimiter)
    decreases |nodes|
  {
    if nodes != [] {
      var last := |nodes| - 1;
      SplitAllTexts(nodes[..last], delimiter, textType);
      SplitOneTexts(nodes[last], delimiter, textType);
      TextsAppend(SplitAll(nodes[..last], delimiter, textType).value,
                  SplitOne(nodes[last], delimiter, textType).value);
    }
  }

  /** The type given to part `i`: plain outside the delimiters, `textType` inside. */
  function PartType(i: nat, textType: TextType): TextType {
    if i % 2 == 0 then Text else textType
  }

  /** The node made of one part, typed by the parity of its index. */
  lemma PartNodeShape(part: string, i: nat, textType: TextType)
    ensures PartNode(part, i, textType) == if part == "" then [] else [TextNode(part, PartType(i, textType), None)]
  {
  }

  /** Every node made of the parts is a non-empty part, typed by the parity of its
      index, with no url. */
  lemma {:induction false} PartsToNodesSound(parts: seq<string>, textType: TextType)
    ensures forall m :: m in PartsToNodes(parts, textType) ==>
              m.url == None && m.text != ""
              && exists i :: 0 <= i < |parts| && parts[i] == m.text && m.textType == PartType(i, textType)
    decreases |parts|
  {
    if parts != [] {
      var last := |parts| - 1;
      var init := parts[..last];
      var before := PartsToNodes(init, textType);
      var extra := PartNode(parts[last], last, textType);
      PartsToNodesSound(init, textType);
      PartNodeShape(parts[last], last, textType);
      assert PartsToNodes(parts, textType) == before + extra;
      forall m: TextNode | m in before + extra
        ensures m.url == None && m.text != ""
        ensures exists i :: 0 <= i < |parts| && parts[i] == m.text && m.textType == PartType(i, textType)
      {
        if m in before {
          var i :| 0 <= i < |init| && init[i] == m.text && m.textType == PartType(i, textType);
          assert parts[i] == init[i];
        } else {
          assert m in extra;
          assert parts[last] == m.text && m.textType == PartType(last, textType);
        }
      }
    }
  }

  /** Every non-empty part, typed by the parity of its index, is among the nodes. */
  lemma {:induction false} PartsToNodesComplete(parts: seq<string>, textType: TextType)
    ensures forall i :: 0 <= i < |parts| && parts[i] != "" ==>
              TextNode(parts[i], PartType(i, textType), None) in PartsToNodes(parts, textType)
    decreases |parts|
  {
    if parts != [] {
      var last := |parts| - 1;
      var init := parts[..last];
      var before := PartsToNodes(init, textType);
      var extra := PartNode(parts[last], last, textType);
      PartsToNodesComplete(init, textType);
      PartNodeShape(parts[last], last, textType);
      assert PartsToNodes(parts, textType) == before + extra;
      forall i | 0 <= i < |parts| && parts[i] != ""
        ensures TextNode(parts[i], PartType(i, textType), None) in before + extra
      {
        if i < last {
          assert init[i] == parts[i];
        } else {
          assert extra == [TextNode(parts[i], PartType(i, textType), None)];
        }
      }
    }
  }

  /** `"****"` split on `**` leaves nothing: all its parts are empty. */
  lemma ExampleAllEmpty()
    ensures SplitAll([TextNode("****", Text, None)], "**", Bold) == Ok([])
  {
    var d := "**";
    SplitOnePair("", "", "", d, Bold);
    assert "" + d + "" + d + "" == "****";
    assert PartNode("", 0, Bold) + PartNode("", 1, Bold) + PartNode("", 2, Bold) == [];
  }

  /** One delimited run inside plain text, as in `"This is **bold** text"`: the
      text before it and after it stay plain, the run gets the target type,
      and whichever of the three is empty disappears. */
  lemma SplitOnePair(a: string, b: string, c: string, delimiter: string, textType: TextType)
    requires delimiter != ""
    requires Avoids(a, delimiter[0])
    requires Avoids(b, delimiter[0])
    requires Avoids(c, delimiter[0])
    ensures SplitAll([TextNode(a + delimiter + b + delimiter + c, Text, None)], delimiter, textType)
            == Ok(PartNode(a, 0, textType) + PartNode(b, 1, textType) + PartNode(c, 2, textType))
  {
    var s := a + delimiter + b + delimiter + c;
    assert s == a + (delimiter + (b + (delimiter + c)));
    var parts := [a, b, c];
    SplitPair(a, b, c, delimiter);
    var one, two := [a], [a, b];
    assert parts[..2] == two && two[..1] == one && one[..0] == [];
    assert PartsToNodes(one, textType) == PartNode(a, 0, textType);
    assert PartsToNodes(two, textType) == PartNode(a, 0, textType) + PartNode(b, 1, textType);
    assert PartsToNodes(parts, textType)
           == PartNode(a, 0, textType) + PartNode(b, 1, textType) + PartNode(c, 2, textType);
    var n := TextNode(s, Text, None);
    assert SplitOne(n, delimiter, textType) == Ok(PartsToNodes(parts, textType));
    assert [n][..0] == [];
    assert SplitAll([n], delimiter, textType) == Ok([] + PartsToNodes(parts, textType));
    assert [] + PartsToNodes(parts, textType) == PartsToNodes(parts, textType);
  }
}

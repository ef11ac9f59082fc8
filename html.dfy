/** The parsed HTML document as the extractor sees it: a tree of elements, each with a name,
    attributes and child nodes, and text nodes. Only the navigation the extractor uses is
    modelled: `Element`, `Elements`, `Descendants`, `Attributes` and `InnerText`. */
module Html {
  import opened Results
  import opened Seqs

  datatype Attribute = Attribute(name: string, value: string)

  datatype Node =
    | Element(name: string, attributes: seq<Attribute>, children: seq<Node>)
    | Text(content: string)

  /** `HtmlNode.Name`; a text node is called "#text". */
  function Name(n: Node): string {
    if n.Element? then n.name else "#text"
  }

  /** `HtmlNode.ChildNodes`; a text node has none. */
  function Children(n: Node): seq<Node> {
    if n.Element? then n.children else []
  }

  /** `Attributes.Contains(key)`. */
  predicate HasAttribute(n: Node, key: string) {
    n.Element? && exists a :: a in n.attributes && a.name == key
  }

  /** The value of the first attribute named `key`. */
  function FirstValue(attrs: seq<Attribute>, key: string): (r: Option<string>)
    ensures r.None? <==> forall i :: 0 <= i < |attrs| ==> attrs[i].name != key
    ensures r.Some? ==> exists i :: FirstWithName(attrs, key, i) && attrs[i].value == r.value
  {
    if attrs == [] then None
    else if attrs[0].name == key then Some(attrs[0].value)
    else
      var r := FirstValue(attrs[1..], key);
      assert forall i :: 1 <= i < |attrs| ==> attrs[i] == attrs[1..][i - 1];
      assert r.Some? ==> exists i :: FirstWithName(attrs[1..], key, i) && attrs[1..][i].value == r.value;
      r
  }

  /** Attribute `i` is the first one named `key`. */
  predicate FirstWithName(attrs: seq<Attribute>, key: string, i: int) {
    0 <= i < |attrs| && attrs[i].name == key && forall k :: 0 <= k < i ==> attrs[k].name != key
  }

  /** `Attributes[key].Value`, or None where `Attributes.Contains(key)` is false. */
  function AttributeValue(n: Node, key: string): (r: Option<string>)
    ensures r.Some? <==> HasAttribute(n, key)
  {
    if n.Element? then FirstValue(n.attributes, key) else None
  }

  /** `HtmlNode.Element(name)`: the first child with that name. */
  function Child(n: Node, name: string): (r: Option<Node>)
    ensures r.None? <==> forall i :: 0 <= i < |Children(n)| ==> Name(Children(n)[i]) != name
    ensures r.Some? ==> exists i :: FirstNamedAt(Children(n), name, i) && Children(n)[i] == r.value
  {
    FirstNamed(Children(n), name)
  }

  /** The first node of `ns` with that name. */
  function FirstNamed(ns: seq<Node>, name: string): (r: Option<Node>)
    ensures r.None? <==> forall i :: 0 <= i < |ns| ==> Name(ns[i]) != name
    ensures r.Some? ==> exists i :: FirstNamedAt(ns, name, i) && ns[i] == r.value
  {
    if ns == [] then None
    else if Name(ns[0]) == name then
      assert FirstNamedAt(ns, name, 0);
      Some(ns[0])
    else
      var r := FirstNamed(ns[1..], name);
      assert forall i :: 1 <= i < |ns| ==> ns[i] == ns[1..][i - 1];
      assert r.Some? ==> exists i :: FirstNamedAt(ns[1..], name, i) && ns[1..][i] == r.value;
      r
  }

  /** Node `i` is the first one of `ns` with that name. */
  predicate FirstNamedAt(ns: seq<Node>, name: string, i: int) {
    0 <= i < |ns| && Name(ns[i]) == name && forall k :: 0 <= k < i ==> Name(ns[k]) != name
  }

  /** `HtmlNode.Elements(name)`: the children with that name, in document order. */
  function Elements(n: Node, name: string): (r: seq<Node>)
    ensures forall x :: x in r <==> x in Children(n) && Name(x) == name
    ensures IsSubsequence(r, Children(n))
    ensures forall x :: multiset(r)[x] == if Name(x) == name then multiset(Children(n))[x] else 0
  {
    FilterOccurrences(Children(n), c => Name(c) == name);
    FilterMembers(Children(n), c => Name(c) == name);
    FilterIsSubsequence(Children(n), c => Name(c) == name);
    Filter(Children(n), c => Name(c) == name)
  }

  /** All nodes below the nodes `ns`, each followed by its own descendants (document order). */
  function DescendantsOf(ns: seq<Node>): seq<Node>
    decreases ns
  {
    if ns == [] then []
    else
      var first := ns[0];
      var below := if first.Element? then DescendantsOf(first.children) else [];
      [first] + below + DescendantsOf(ns[1..])
  }

  /** `HtmlNode.Descendants(name)`: the nodes below `n` with that name, in document order. */
  function Descendants(n: Node, name: string): (r: seq<Node>)
    ensures forall x :: x in r <==> x in DescendantsOf(Children(n)) && Name(x) == name
    ensures IsSubsequence(r, DescendantsOf(Children(n)))
    ensures forall x :: multiset(r)[x] == if Name(x) == name then multiset(DescendantsOf(Children(n)))[x] else 0
  {
    FilterOccurrences(DescendantsOf(Children(n)), c => Name(c) == name);
    FilterMembers(DescendantsOf(Children(n)), c => Name(c) == name);
    FilterIsSubsequence(DescendantsOf(Children(n)), c => Name(c) == name);
    Filter(DescendantsOf(Children(n)), c => Name(c) == name)
  }

  /** `HtmlNode.InnerText`: the text of every text node at or below `n`, in document order. */
  function InnerText(n: Node): string {
    match n
    case Text(t) => t
    case Element(_, _, children) => TextOf(children)
  }

  function TextOf(ns: seq<Node>): string
    decreases ns
  {
    if ns == [] then []
    else
      var first := ns[0];
      var text := if first.Element? then TextOf(first.children) else first.content;
      text + TextOf(ns[1..])
  }

  /** An element's inner text is its children's inner texts, concatenated in document order. */
  lemma {:induction false} InnerTextOfChildren(ns: seq<Node>)
    ensures TextOf(ns) == FlatMap(ns, InnerText)
    decreases ns
  {
    if ns != [] {
      InnerTextOfChildren(ns[1..]);
      FlatMapAppend([ns[0]], ns[1..], InnerText);
      assert [ns[0]] + ns[1..] == ns;
      assert FlatMap([ns[0]], InnerText) == InnerText(ns[0]) by {
        assert [ns[0]][..0] == [];
      }
    }
  }
}

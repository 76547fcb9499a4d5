/** Translation documents (the parsed JSON of one language file) and the path walk of `getText`. */
module Documents {
  import opened Wrappers

  /** A node of a translation document: a string leaf or an object mapping keys to children. */
  datatype Node = Leaf(text: string) | Branch(children: map<string, Node>)

  /** The `{}` fallback document. */
  const Empty: Node := Branch(map[])

  /** JavaScript truthiness of a node: the empty string is the only falsy value modelled. */
  predicate Truthy(n: Node): (b: bool)
    ensures n.Branch? ==> b
    ensures n.Leaf? ==> (b <==> n.text != "")
  {
    n != Leaf("")
  }

  /** What `element.textContent = n` shows: a string as itself, an object as "[object Object]". */
  function TextContent(n: Node): (shown: string)
    ensures Truthy(n) ==> shown != ""
    ensures n.Leaf? ==> shown == n.text
  {
    match n
    case Leaf(s) => s
    case Branch(_) => "[object Object]"
  }

  /** One step `value = value[k]`: `None` stands for `undefined`; a leaf has no children. */
  function Child(n: Node, k: string): (c: Option<Node>)
    ensures c.Some? <==> n.Branch? && k in n.children
    ensures c.Some? ==> c.value == n.children[k]
  {
    match n
    case Leaf(_) => None
    case Branch(m) => if k in m then Some(m[k]) else None
  }

  /** Descend from `doc` through `path`, one segment at a time; `None` as soon as a segment is missing. */
  function Resolve(doc: Node, path: seq<string>): (r: Option<Node>)
    ensures path == [] ==> r == Some(doc)
    ensures path != [] && r.Some? ==> doc.Branch? && path[0] in doc.children
    decreases |path|
  {
    if path == [] then Some(doc)
    else
      match Child(doc, path[0])
      case None => None
      case Some(c) => Resolve(c, path[1..])
  }

  /** The walk over `p + q` is the walk over `p` followed by the walk over `q`. */
  lemma {:induction false} ResolveAppend(doc: Node, p: seq<string>, q: seq<string>)
    ensures Resolve(doc, p + q) == match Resolve(doc, p) case None => None case Some(n) => Resolve(n, q)
    decreases |p|
  {
    if p != [] {
      assert (p + q)[0] == p[0];
      assert (p + q)[1..] == p[1..] + q;
      match Child(doc, p[0])
      case None =>
      case Some(c) => ResolveAppend(c, p[1..], q);
    } else {
      assert p + q == q;
    }
  }

  /** A segment that is absent from the node reached by the segments before it yields not-found. */
  lemma MissingSegment(doc: Node, path: seq<string>, i: nat, n: Node)
    requires i < |path|
    requires Resolve(doc, path[..i]) == Some(n)
    requires Child(n, path[i]) == None
    ensures Resolve(doc, path) == None
  {
    assert path == path[..i] + path[i..];
    ResolveAppend(doc, path[..i], path[i..]);
    assert path[i..][0] == path[i];
  }

  /** Conversely, a not-found walk has a first segment that is absent from the node reached before it. */
  lemma {:induction false} NotFoundSegment(doc: Node, path: seq<string>) returns (i: nat, n: Node)
    requires Resolve(doc, path) == None
    ensures i < |path| && Resolve(doc, path[..i]) == Some(n) && Child(n, path[i]) == None
    decreases |path|
  {
    match Child(doc, path[0])
    case None =>
      i, n := 0, doc;
      assert path[..0] == [];
    case Some(c) =>
      var j, m := NotFoundSegment(c, path[1..]);
      i, n := j + 1, m;
      assert path[..i][0] == path[0] && path[..i][1..] == path[1..][..j];
  }

  /** `nodes` is the sequence of nodes met when descending from `doc` along `path`, in key order. */
  ghost predicate Descent(doc: Node, path: seq<string>, nodes: seq<Node>)
  {
    |nodes| == |path| + 1 && nodes[0] == doc &&
    forall i :: 0 <= i < |path| ==> Child(nodes[i], path[i]) == Some(nodes[i + 1])
  }

  /** A full descent along `path` ends at what the walk returns. */
  lemma {:induction false} DescentResolves(doc: Node, path: seq<string>, nodes: seq<Node>)
    requires Descent(doc, path, nodes)
    ensures Resolve(doc, path) == Some(nodes[|path|])
    decreases |path|
  {
    if path != [] {
      assert Child(nodes[0], path[0]) == Some(nodes[1]);
      var rest := nodes[1..];
      forall i | 0 <= i < |path[1..]|
        ensures Child(rest[i], path[1..][i]) == Some(rest[i + 1])
      {
        assert Child(nodes[i + 1], path[i + 1]) == Some(nodes[i + 2]);
      }
      DescentResolves(nodes[1], path[1..], rest);
    }
  }

  /** When the walk finds a node, there is a full descent along `path` ending at it. */
  lemma {:induction false} ResolvedDescent(doc: Node, path: seq<string>, n: Node) returns (nodes: seq<Node>)
    requires Resolve(doc, path) == Some(n)
    ensures Descent(doc, path, nodes) && nodes[|path|] == n
    decreases |path|
  {
    if path == [] {
      nodes := [doc];
    } else {
      var c := Child(doc, path[0]).value;
      var rest := ResolvedDescent(c, path[1..], n);
      nodes := [doc] + rest;
      forall i | 0 <= i < |path|
        ensures Child(nodes[i], path[i]) == Some(nodes[i + 1])
      {
        if i > 0 {
          assert Child(rest[i - 1], path[1..][i - 1]) == Some(rest[i]);
        }
      }
    }
  }

  /** The empty fallback document resolves no non-empty path. */
  lemma EmptyResolvesNothing(path: seq<string>)
    requires path != []
    ensures Resolve(Empty, path) == None
  {
  }
}

/** `classSets` and `classesInFile` (extract/extract.go): the walk over a
    parsed document that emits one signature per element carrying a `class`
    attribute.  The HTML parser itself is not modelled; its output tree is the
    input here. */
module Scan {
  import opened Wrappers
  import opened Normalize

  /** The kinds of node the HTML parser produces (`html.NodeType`). */
  datatype NodeType =
    | ErrorNode | TextNode | DocumentNode | ElementNode
    | CommentNode | DoctypeNode | RawNode

  /** One attribute of an element (`html.Attribute`). */
  datatype Attribute = Attribute(namespace: string, key: string, val: string)

  /** A parsed node: its kind, its attributes in source order and its
      children in `FirstChild`/`NextSibling` order.  Tag names and text are
      not needed by the pipeline and are left out. */
  datatype Node = Node(kind: NodeType, attrs: seq<Attribute>, children: seq<Node>)

  /** Why a file yields no node tree: it could not be opened or parsed. */
  datatype FileError = FileError(path: string, message: string)

  /** Position `i` holds the first attribute whose key is exactly "class". */
  predicate IsFirstClassAt(attrs: seq<Attribute>, i: nat) {
    && i < |attrs|
    && attrs[i].key == "class"
    && forall j :: 0 <= j < i ==> attrs[j].key != "class"
  }

  /** The value of the first attribute whose key is exactly "class" (the
      `break` in the attribute loop), or nothing when there is none. */
  function FirstClass(attrs: seq<Attribute>): (r: Option<string>)
    ensures r.None? <==> forall i :: 0 <= i < |attrs| ==> attrs[i].key != "class"
    ensures r.Some? ==> exists i: nat :: IsFirstClassAt(attrs, i) && attrs[i].val == r.value
  {
    if attrs == [] then None
    else if attrs[0].key == "class" then
      assert IsFirstClassAt(attrs, 0);
      Some(attrs[0].val)
    else
      var r := FirstClass(attrs[1..]);
      assert r.Some? ==> exists i: nat :: IsFirstClassAt(attrs, i) && attrs[i].val == r.value by {
        if r.Some? {
          var i: nat :| IsFirstClassAt(attrs[1..], i) && attrs[1..][i].val == r.value;
          forall j | 0 <= j < i + 1
            ensures attrs[j].key != "class"
          {
            if j > 0 { assert attrs[j] == attrs[1..][j - 1]; }
          }
          assert IsFirstClassAt(attrs, i + 1);
        }
      }
      r
  }

  /** An element node with a class attribute: the nodes that emit. */
  predicate Qualifies(n: Node) {
    n.kind == ElementNode && FirstClass(n.attrs).Some?
  }

  /** What one node emits before its children are visited. */
  function Own(n: Node): (r: seq<string>)
    ensures |r| == if Qualifies(n) then 1 else 0
    ensures Qualifies(n) ==> r[0] == ClassSet(FirstClass(n.attrs).value)
  {
    if n.kind == ElementNode then
      match FirstClass(n.attrs)
      case Some(v) => [ClassSet(v)]
      case None => []
    else []
  }

  /** `classSets`: the recursive closure `f`, applied to the document root. */
  function ClassSets(n: Node): (r: seq<string>)
    ensures forall k :: 0 <= k < |r| ==> IsSignature(r[k])
    decreases n
  {
    Own(n) + ForestClassSets(n.children)
  }

  /** `f` applied to each child in turn, appending to the same list. */
  function ForestClassSets(ns: seq<Node>): (r: seq<string>)
    ensures forall k :: 0 <= k < |r| ==> IsSignature(r[k])
    decreases ns
  {
    if ns == [] then [] else ClassSets(ns[0]) + ForestClassSets(ns[1..])
  }

  /** The nodes of a tree in pre-order: each node before its children, the
      children left to right. */
  function PreOrder(n: Node): seq<Node>
    decreases n
  {
    [n] + ForestPreOrder(n.children)
  }

  function ForestPreOrder(ns: seq<Node>): seq<Node>
    decreases ns
  {
    if ns == [] then [] else PreOrder(ns[0]) + ForestPreOrder(ns[1..])
  }

  /** The emitting nodes of a list, in order. */
  function Qualifying(ns: seq<Node>): (r: seq<Node>)
    ensures forall k :: 0 <= k < |r| ==> Qualifies(r[k]) && r[k] in ns
    ensures forall m :: m in ns && Qualifies(m) ==> m in r
  {
    if ns == [] then []
    else (if Qualifies(ns[0]) then [ns[0]] else []) + Qualifying(ns[1..])
  }

  lemma {:induction false} QualifyingAppend(a: seq<Node>, b: seq<Node>)
    ensures Qualifying(a + b) == Qualifying(a) + Qualifying(b)
  {
    if a != [] {
      assert (a + b)[1..] == a[1..] + b;
      QualifyingAppend(a[1..], b);
    } else {
      assert a + b == b;
    }
  }

  /** The signature an emitting node contributes. */
  function Signature(n: Node): string
    requires Qualifies(n)
  {
    ClassSet(FirstClass(n.attrs).value)
  }

  /** `sigs` is, position by position, the signature of the nodes `q`. */
  ghost predicate SignaturesOf(sigs: seq<string>, q: seq<Node>)
    requires forall k :: 0 <= k < |q| ==> Qualifies(q[k])
  {
    |sigs| == |q| && forall k :: 0 <= k < |q| ==> sigs[k] == Signature(q[k])
  }

  lemma SignaturesOfAppend(s1: seq<string>, q1: seq<Node>, s2: seq<string>, q2: seq<Node>)
    requires forall k :: 0 <= k < |q1| ==> Qualifies(q1[k])
    requires forall k :: 0 <= k < |q2| ==> Qualifies(q2[k])
    requires SignaturesOf(s1, q1) && SignaturesOf(s2, q2)
    ensures SignaturesOf(s1 + s2, q1 + q2)
  {
    var s, q := s1 + s2, q1 + q2;
    forall k | 0 <= k < |q|
      ensures s[k] == Signature(q[k])
    {
      if k < |q1| {
        assert s[k] == s1[k] && q[k] == q1[k];
      } else {
        assert s[k] == s2[k - |q1|] && q[k] == q2[k - |q1|];
      }
    }
  }

  /** The walk emits exactly one signature per element node that has a class
      attribute, computed from its first class attribute, in pre-order;
      every other node contributes nothing. */
  lemma {:induction false} ClassSetsInPreOrder(n: Node)
    ensures SignaturesOf(ClassSets(n), Qualifying(PreOrder(n)))
    decreases n
  {
    ForestClassSetsInPreOrder(n.children);
    QualifyingAppend([n], ForestPreOrder(n.children));
    SignaturesOfAppend(Own(n), Qualifying([n]),
      ForestClassSets(n.children), Qualifying(ForestPreOrder(n.children)));
  }

  lemma {:induction false} ForestClassSetsInPreOrder(ns: seq<Node>)
    ensures SignaturesOf(ForestClassSets(ns), Qualifying(ForestPreOrder(ns)))
    decreases ns
  {
    if ns != [] {
      ClassSetsInPreOrder(ns[0]);
      ForestClassSetsInPreOrder(ns[1..]);
      QualifyingAppend(PreOrder(ns[0]), ForestPreOrder(ns[1..]));
      SignaturesOfAppend(ClassSets(ns[0]), Qualifying(PreOrder(ns[0])),
        ForestClassSets(ns[1..]), Qualifying(ForestPreOrder(ns[1..])));
    }
  }

  /** `classesInFile`: a file that could not be opened or parsed yields its
      error; otherwise the signatures of its tree. */
  function ScanFile(doc: Result<Node, FileError>): (r: Result<seq<string>, FileError>)
    ensures r.Failure? <==> doc.Failure?
    ensures doc.Failure? ==> r.error == doc.error
    ensures doc.Success? ==> SignaturesOf(r.value, Qualifying(PreOrder(doc.value)))
  {
    match doc
    case Failure(e) => Failure(e)
    case Success(root) =>
      ClassSetsInPreOrder(root);
      Success(ClassSets(root))
  }
}

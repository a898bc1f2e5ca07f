/** The node file format of src/fileloader.cpp as a language of byte strings.

    A file is a version word followed by nodes. A node is NODE_START, one raw type
    byte, escaped properties, child nodes, NODE_END. This module holds the writer's
    output and the parser's result as functions, and proves what the parser accepts
    and when a written tree reads back. FileLoader.dfy proves the code against them. */
module NodeFormat {
  import opened Common

  const NODE_START: Byte := 0xFE
  const NODE_END: Byte := 0xFF
  const ESCAPE_CHAR: Byte := 0xFD

  /** A node; `props` is raw (escaped) in a parsed tree and plain in a tree to be written. */
  datatype Node = Node(kind: Byte, props: seq<Byte>, children: seq<Node>)

  predicate Special(b: Byte) {
    b == NODE_START || b == NODE_END || b == ESCAPE_CHAR
  }

  // ---------------------------------------------------------------- escaping

  function EscapeByte(b: Byte): seq<Byte> {
    if Special(b) then [ESCAPE_CHAR, b] else [b]
  }

  function Escape(data: seq<Byte>): seq<Byte> {
    if data == [] then [] else EscapeByte(data[0]) + Escape(data[1..])
  }

  /** Drops each escape byte and keeps the byte after it. */
  function Unescape(raw: seq<Byte>): seq<Byte> {
    if raw == [] then []
    else if raw[0] == ESCAPE_CHAR && |raw| >= 2 then [raw[1]] + Unescape(raw[2..])
    else [raw[0]] + Unescape(raw[1..])
  }

  /** Every escape byte has its partner and no start or end byte stands bare. */
  predicate WellEscaped(raw: seq<Byte>) {
    raw == [] ||
    if raw[0] == ESCAPE_CHAR then |raw| >= 2 && WellEscaped(raw[2..])
    else !Special(raw[0]) && WellEscaped(raw[1..])
  }

  lemma {:induction false} EscapeAppend(a: seq<Byte>, b: seq<Byte>)
    ensures Escape(a + b) == Escape(a) + Escape(b)
  {
    if a == [] {
      assert a + b == b;
    } else {
      EscapeAppend(a[1..], b);
      assert (a + b)[0] == a[0] && (a + b)[1..] == a[1..] + b;
      AssociateThree(EscapeByte(a[0]), Escape(a[1..]), Escape(b));
    }
  }

  lemma {:induction false} UnescapeAppend(a: seq<Byte>, b: seq<Byte>)
    requires WellEscaped(a)
    ensures Unescape(a + b) == Unescape(a) + Unescape(b)
    ensures WellEscaped(a + b) == WellEscaped(b)
  {
    if a == [] {
      assert a + b == b;
    } else if a[0] == ESCAPE_CHAR {
      UnescapeAppend(a[2..], b);
      assert (a + b)[2..] == a[2..] + b;
      assert Unescape(a + b) == [a[1]] + Unescape((a + b)[2..]);
      assert Unescape(a) == [a[1]] + Unescape(a[2..]);
      AssociateThree([a[1]], Unescape(a[2..]), Unescape(b));
    } else {
      UnescapeAppend(a[1..], b);
      assert (a + b)[1..] == a[1..] + b;
      assert Unescape(a + b) == [a[0]] + Unescape((a + b)[1..]);
      assert Unescape(a) == [a[0]] + Unescape(a[1..]);
      AssociateThree([a[0]], Unescape(a[1..]), Unescape(b));
    }
  }

  /** Unescaping undoes escaping, and escaped data never looks like node structure. */
  lemma {:induction false} EscapeRoundTrip(data: seq<Byte>)
    ensures WellEscaped(Escape(data))
    ensures Unescape(Escape(data)) == data
  {
    if data != [] {
      EscapeRoundTrip(data[1..]);
      var one := EscapeByte(data[0]);
      assert WellEscaped(one) by {
        if |one| == 2 { assert one[2..] == []; } else { assert one[1..] == []; }
      }
      assert Unescape(one) == [data[0]] by {
        if |one| == 2 { assert one[2..] == []; } else { assert one[1..] == []; }
      }
      UnescapeAppend(one, Escape(data[1..]));
    }
  }

  // ---------------------------------------------------------------- layout

  /** The bytes of a node whose properties are already escaped. */
  function NodeBytes(n: Node): (bytes: seq<Byte>)
    ensures |bytes| >= 3 && bytes[0] == NODE_START
    decreases n, 0
  {
    [NODE_START] + ([n.kind] + (n.props + (ListBytes(n.children) + [NODE_END])))
  }

  function ListBytes(ns: seq<Node>): (bytes: seq<Byte>)
    ensures ns != [] ==> |bytes| >= 3 && bytes[0] == NODE_START
    decreases ns, 1
  {
    if ns == [] then [] else NodeBytes(ns[0]) + ListBytes(ns[1..])
  }

  predicate WellFormed(n: Node)
    decreases n, 0
  {
    WellEscaped(n.props) && WellFormedList(n.children)
  }

  predicate WellFormedList(ns: seq<Node>)
    decreases ns, 1
  {
    ns == [] || (WellFormed(ns[0]) && WellFormedList(ns[1..]))
  }

  /** The bytes `b` stand at position `p` of `s`. */
  predicate At(s: seq<Byte>, p: nat, b: seq<Byte>) {
    p + |b| <= |s| && s[p..p + |b|] == b
  }

  lemma AtConcat(s: seq<Byte>, p: nat, a: seq<Byte>, b: seq<Byte>)
    ensures At(s, p, a + b) <==> At(s, p, a) && At(s, p + |a|, b)
  {
    if p + |a| + |b| <= |s| {
      var w := s[p..p + |a + b|];
      assert w[..|a|] == s[p..p + |a|] && w[|a|..] == s[p + |a|..p + |a| + |b|];
      assert w == w[..|a|] + w[|a|..];
      if w == a + b { assert w[..|a|] == a && w[|a|..] == b; }
    }
  }

  lemma AtByte(s: seq<Byte>, p: nat, b: Byte)
    ensures At(s, p, [b]) <==> p < |s| && s[p] == b
  {
    if p < |s| { assert s[p..p + 1] == [s[p]]; }
  }

  lemma PiecesAt(s: seq<Byte>, p: nat, kind: Byte, props: seq<Byte>, c: seq<Byte>)
    ensures At(s, p, [NODE_START] + ([kind] + (props + (c + [NODE_END])))) <==>
            && p + 1 < |s| && s[p] == NODE_START && s[p + 1] == kind
            && At(s, p + 2, props) && At(s, p + 2 + |props|, c)
            && var e := p + 2 + |props| + |c|; e < |s| && s[e] == NODE_END
  {
    AtConcat(s, p, [NODE_START], [kind] + (props + (c + [NODE_END])));
    AtConcat(s, p + 1, [kind], props + (c + [NODE_END]));
    AtConcat(s, p + 2, props, c + [NODE_END]);
    AtConcat(s, p + 2 + |props|, c, [NODE_END]);
    AtByte(s, p, NODE_START);
    AtByte(s, p + 1, kind);
    AtByte(s, p + 2 + |props| + |c|, NODE_END);
  }

  /** The layout of one node, piece by piece. */
  lemma NodeAt(s: seq<Byte>, p: nat, n: Node)
    ensures At(s, p, NodeBytes(n)) <==>
            && p + 1 < |s| && s[p] == NODE_START && s[p + 1] == n.kind
            && At(s, p + 2, n.props)
            && At(s, p + 2 + |n.props|, ListBytes(n.children))
            && var e := p + 2 + |n.props| + |ListBytes(n.children)|; e < |s| && s[e] == NODE_END
    ensures |NodeBytes(n)| == 3 + |n.props| + |ListBytes(n.children)|
  {
    PiecesAt(s, p, n.kind, n.props, ListBytes(n.children));
  }

  // ---------------------------------------------------------------- the parser's result

  /** Position of the first start or end byte at or after `p` that is not escaped. */
  function ScanProps(s: seq<Byte>, p: nat): (r: Option<nat>)
    requires p <= |s|
    ensures r.Some? ==> p <= r.value < |s| && (s[r.value] == NODE_START || s[r.value] == NODE_END)
    decreases |s| - p
  {
    if p == |s| then None
    else if s[p] == NODE_START || s[p] == NODE_END then Some(p)
    else if s[p] != ESCAPE_CHAR then ScanProps(s, p + 1)
    else if p + 1 == |s| then None
    else ScanProps(s, p + 2)
  }

  lemma {:induction false} ScanWellEscaped(s: seq<Byte>, p: nat)
    requires p <= |s| && ScanProps(s, p).Some?
    ensures WellEscaped(s[p..ScanProps(s, p).value])
    decreases |s| - p
  {
    var q := ScanProps(s, p).value;
    if q != p {
      var k := if s[p] == ESCAPE_CHAR then 2 else 1;
      ScanWellEscaped(s, p + k);
      assert s[p..q][k..] == s[p + k..q];
    }
  }

  /** One parsed node; `end` is the position of its NODE_END. */
  datatype OneNode = OneNode(node: Node, end: nat)

  /** A parsed run of siblings; `next` is where reading continues. */
  datatype Siblings = Siblings(nodes: seq<Node>, next: nat)

  /** The node whose NODE_START is at `p`, up to its NODE_END. */
  function ParseOne(s: seq<Byte>, p: nat): (r: Option<OneNode>)
    requires p < |s| && s[p] == NODE_START
    ensures r.Some? ==> p + 2 <= r.value.end < |s| && s[r.value.end] == NODE_END
    decreases |s| - p, 0
  {
    if p + 1 == |s| then None
    else
      var q := ScanProps(s, p + 2);
      if q.None? then None
      else if s[q.value] == NODE_END then Some(OneNode(Node(s[p + 1], s[p + 2..q.value], []), q.value))
      else
        var c := ParseSiblings(s, q.value);
        if c.None? || c.value.next == |s| then None
        else Some(OneNode(Node(s[p + 1], s[p + 2..q.value], c.value.nodes), c.value.next))
  }

  /** The node at `p` and the siblings after it. Reading continues at the end of the
      file or, because of the one byte pushed back, on the parent's NODE_END. */
  function ParseSiblings(s: seq<Byte>, p: nat): (r: Option<Siblings>)
    requires p < |s| && s[p] == NODE_START
    ensures r.Some? ==> r.value.nodes != [] && p + 3 <= r.value.next <= |s|
    ensures r.Some? && r.value.next < |s| ==> s[r.value.next] == NODE_END
    decreases |s| - p, 1
  {
    var one := ParseOne(s, p);
    if one.None? then None
    else
      var e := one.value.end + 1;
      if e == |s| || s[e] == NODE_END then Some(Siblings([one.value.node], e))
      else if s[e] == NODE_START then
        var rest := ParseSiblings(s, e);
        if rest.None? then None
        else Some(Siblings([one.value.node] + rest.value.nodes, rest.value.next))
      else None
  }

  /** What a node is, given where its properties stop and what stands there. */
  lemma OneStep(s: seq<Byte>, p: nat, stop: Option<nat>, below: Option<Siblings>)
    requires p + 2 <= |s| && s[p] == NODE_START && stop == ScanProps(s, p + 2)
    requires stop.Some? && s[stop.value] == NODE_START ==> below == ParseSiblings(s, stop.value)
    ensures ParseOne(s, p).Some? ==
      (stop.Some? && (s[stop.value] == NODE_START ==> below.Some? && below.value.next < |s|))
    ensures ParseOne(s, p).Some? ==>
      var r := ParseOne(s, p).value;
      && r.node.kind == s[p + 1] && |r.node.props| == stop.value - p - 2 && At(s, p + 2, r.node.props)
      && if s[stop.value] == NODE_START then r.end == below.value.next && r.node.children == below.value.nodes
         else r.end == stop.value && r.node.children == []
  {
  }

  /** How a run of siblings continues after its first node, given what comes next. */
  lemma SiblingsStep(s: seq<Byte>, p: nat, one: Option<OneNode>, after: Option<Siblings>)
    requires p < |s| && s[p] == NODE_START && one == ParseOne(s, p)
    requires one.Some? && one.value.end + 1 < |s| && s[one.value.end + 1] == NODE_START ==>
      after == ParseSiblings(s, one.value.end + 1)
    ensures one.None? ==> ParseSiblings(s, p).None?
    ensures one.Some? ==>
      var e, r := one.value.end + 1, ParseSiblings(s, p);
      if e == |s| || s[e] == NODE_END then r == Some(Siblings([one.value.node], e))
      else if s[e] == NODE_START then
        && r.Some? == after.Some?
        && (r.Some? ==> r.value.next == after.value.next)
        && (r.Some? ==> r.value.nodes[0] == one.value.node && r.value.nodes[1..] == after.value.nodes)
      else r.None?
  {
  }

  const VERSION: seq<Byte> := [0, 0, 0, 0]

  /** What opening a file for reading makes of its bytes. */
  function ParseFile(s: seq<Byte>): (r: Option<seq<Node>>) {
    var p := |VERSION|;
    if |s| <= p || s[..p] != VERSION || s[p] != NODE_START then None
    else
      var r := ParseSiblings(s, p);
      if r.None? then None else Some(r.value.nodes)
  }

  // ---------------------------------------------------------------- what the parser accepts

  /** Whatever the parser accepts is, byte for byte, the layout of the tree it returns. */
  lemma {:induction false} ParseOneSound(s: seq<Byte>, p: nat)
    requires p < |s| && s[p] == NODE_START && ParseOne(s, p).Some?
    ensures var r := ParseOne(s, p).value;
            WellFormed(r.node) && At(s, p, NodeBytes(r.node)) && r.end + 1 == p + |NodeBytes(r.node)|
    decreases |s| - p, 0
  {
    var r := ParseOne(s, p).value;
    var stop := ScanProps(s, p + 2);
    var below := if stop.Some? && s[stop.value] == NODE_START then ParseSiblings(s, stop.value) else None;
    OneStep(s, p, stop, below);
    ScanWellEscaped(s, p + 2);
    if s[stop.value] == NODE_START {
      ParseSiblingsSound(s, stop.value);
    }
    PartsLaidOut(s, p, r.node, stop.value, r.end);
  }

  /** The parts of a node in their places are its layout. */
  lemma PartsLaidOut(s: seq<Byte>, p: nat, n: Node, q: nat, end: nat)
    requires p + 1 < |s| && s[p] == NODE_START && s[p + 1] == n.kind
    requires |n.props| == q - p - 2 && At(s, p + 2, n.props) && WellEscaped(s[p + 2..q])
    requires WellFormedList(n.children) && At(s, q, ListBytes(n.children)) && end == q + |ListBytes(n.children)|
    requires end < |s| && s[end] == NODE_END
    ensures WellFormed(n) && At(s, p, NodeBytes(n)) && end + 1 == p + |NodeBytes(n)|
  {
    NodeAt(s, p, n);
  }

  lemma {:induction false} ParseSiblingsSound(s: seq<Byte>, p: nat)
    requires p < |s| && s[p] == NODE_START && ParseSiblings(s, p).Some?
    ensures var r := ParseSiblings(s, p).value;
            WellFormedList(r.nodes) && At(s, p, ListBytes(r.nodes)) && r.next == p + |ListBytes(r.nodes)|
    decreases |s| - p, 1
  {
    var r := ParseSiblings(s, p).value;
    var e := ParseOne(s, p).value.end + 1;
    ParseOneSound(s, p);
    if e == |s| || s[e] == NODE_END {
      assert r.nodes[1..] == [];
    } else {
      ParseSiblingsSound(s, e);
      assert r.nodes[1..] == ParseSiblings(s, e).value.nodes;
    }
    AtConcat(s, p, NodeBytes(r.nodes[0]), ListBytes(r.nodes[1..]));
  }

  lemma {:induction false} ScanComplete(s: seq<Byte>, p: nat, raw: seq<Byte>)
    requires WellEscaped(raw) && At(s, p, raw) && p + |raw| < |s|
    requires s[p + |raw|] == NODE_START || s[p + |raw|] == NODE_END
    ensures ScanProps(s, p) == Some(p + |raw|)
    decreases |raw|
  {
    if raw != [] {
      assert raw[0] == s[p];
      var k := if raw[0] == ESCAPE_CHAR then 2 else 1;
      assert raw == raw[..k] + raw[k..];
      AtConcat(s, p, raw[..k], raw[k..]);
      ScanComplete(s, p + k, raw[k..]);
    }
  }

  /** The parser finds every well-formed node that is laid out in the bytes. */
  lemma {:induction false} ParseOneComplete(s: seq<Byte>, p: nat, n: Node)
    requires WellFormed(n) && At(s, p, NodeBytes(n))
    ensures s[p] == NODE_START && ParseOne(s, p) == Some(OneNode(n, p + |NodeBytes(n)| - 1))
    decreases n, 0
  {
    var q, end := NodeParts(s, p, n);
    if n.children == [] {
      LeafParsed(s, p, n, q);
    } else {
      RunComplete(s, q, n.children, end);
      ParentParsed(s, p, n, q, end);
    }
  }

  /** Where the parts of a node are laid out. */
  lemma NodeParts(s: seq<Byte>, p: nat, n: Node) returns (q: nat, end: nat)
    requires WellFormed(n) && At(s, p, NodeBytes(n))
    ensures p + 2 <= q < |s| && s[p] == NODE_START && s[p + 1] == n.kind && ScanProps(s, p + 2) == Some(q)
    ensures At(s, p + 2, n.props) && |n.props| == q - p - 2
    ensures WellFormedList(n.children) && At(s, q, ListBytes(n.children)) && end == q + |ListBytes(n.children)|
    ensures end < |s| && s[end] == NODE_END && end == p + |NodeBytes(n)| - 1
    ensures if n.children == [] then q == end else s[q] == NODE_START
  {
    NodeAt(s, p, n);
    q := p + 2 + |n.props|;
    end := q + |ListBytes(n.children)|;
    if n.children != [] {
      ListContinues(s, q, n.children);
    }
    ScanComplete(s, p + 2, n.props);
  }

  lemma LeafParsed(s: seq<Byte>, p: nat, n: Node, q: nat)
    requires p + 2 <= q < |s| && s[p] == NODE_START && s[p + 1] == n.kind && ScanProps(s, p + 2) == Some(q)
    requires At(s, p + 2, n.props) && |n.props| == q - p - 2 && n.children == [] && s[q] == NODE_END
    ensures ParseOne(s, p) == Some(OneNode(n, q))
  {
    OneStep(s, p, Some(q), None);
  }

  lemma ParentParsed(s: seq<Byte>, p: nat, n: Node, q: nat, e: nat)
    requires p + 2 <= q < |s| && s[p] == NODE_START && s[p + 1] == n.kind && ScanProps(s, p + 2) == Some(q)
    requires At(s, p + 2, n.props) && |n.props| == q - p - 2 && s[q] == NODE_START
    requires ParseSiblings(s, q) == Some(Siblings(n.children, e)) && e < |s|
    ensures ParseOne(s, p) == Some(OneNode(n, e))
  {
    OneStep(s, p, Some(q), Some(Siblings(n.children, e)));
  }

  lemma {:induction false} ParseSiblingsComplete(s: seq<Byte>, p: nat, ns: seq<Node>)
    requires ns != [] && WellFormedList(ns) && At(s, p, ListBytes(ns))
    requires p + |ListBytes(ns)| == |s| || s[p + |ListBytes(ns)|] == NODE_END
    ensures s[p] == NODE_START && ParseSiblings(s, p) == Some(Siblings(ns, p + |ListBytes(ns)|))
    decreases ns, 2
  {
    RunComplete(s, p, ns, p + |ListBytes(ns)|);
  }

  /** These siblings lie here, up to the end of the file or a NODE_END. */
  ghost predicate LiesHere(s: seq<Byte>, p: nat, ns: seq<Node>, next: nat) {
    && ns != [] && WellFormedList(ns) && At(s, p, ListBytes(ns)) && next == p + |ListBytes(ns)|
    && (next == |s| || s[next] == NODE_END)
  }

  lemma {:induction false} RunComplete(s: seq<Byte>, p: nat, ns: seq<Node>, next: nat)
    requires LiesHere(s, p, ns, next)
    ensures p < |s| && s[p] == NODE_START && ParseSiblings(s, p) == Some(Siblings(ns, next))
    decreases ns, 2
  {
    assert ns != [];
    var end := FirstSibling(s, p, ns, next);
    if ns[1..] != [] {
      RunComplete(s, end + 1, ns[1..], next);
    }
    RunGoesOn(s, p, ns, end, next);
  }

  lemma {:induction false} FirstSibling(s: seq<Byte>, p: nat, ns: seq<Node>, next: nat) returns (end: nat)
    requires LiesHere(s, p, ns, next)
    ensures p < |s| && s[p] == NODE_START && end < |s| && ParseOne(s, p) == Some(OneNode(ns[0], end))
    ensures ns[1..] == [] ==> next == end + 1 && (next == |s| || s[next] == NODE_END)
    ensures ns[1..] != [] ==> end + 1 < |s| && LiesHere(s, end + 1, ns[1..], next)
    decreases ns, 1
  {
    end := FirstLaidOut(s, p, ns);
    FirstParsed(s, p, ns, end);
  }

  lemma RunGoesOn(s: seq<Byte>, p: nat, ns: seq<Node>, end: nat, next: nat)
    requires ns != [] && p < |s| && s[p] == NODE_START && end < |s| && ParseOne(s, p) == Some(OneNode(ns[0], end))
    requires ns[1..] == [] ==> next == end + 1 && (next == |s| || s[next] == NODE_END)
    requires ns[1..] != [] ==>
      end + 1 < |s| && s[end + 1] == NODE_START && ParseSiblings(s, end + 1) == Some(Siblings(ns[1..], next))
    ensures ParseSiblings(s, p) == Some(Siblings(ns, next))
  {
    if ns[1..] == [] {
      LastSibling(s, p, ns, end);
    } else {
      MoreSiblings(s, p, ns, end, next);
    }
  }

  lemma {:induction false} FirstParsed(s: seq<Byte>, p: nat, ns: seq<Node>, end: nat)
    requires ns != [] && WellFormed(ns[0]) && At(s, p, NodeBytes(ns[0])) && end == p + |NodeBytes(ns[0])| - 1
    ensures p < |s| && s[p] == NODE_START && end < |s| && ParseOne(s, p) == Some(OneNode(ns[0], end))
    decreases ns, 0
  {
    ParseOneComplete(s, p, ns[0]);
  }

  /** A run of siblings is its first node and the others behind it. */
  lemma FirstLaidOut(s: seq<Byte>, p: nat, ns: seq<Node>) returns (end: nat)
    requires ns != [] && WellFormedList(ns) && At(s, p, ListBytes(ns))
    ensures WellFormed(ns[0]) && At(s, p, NodeBytes(ns[0])) && end == p + |NodeBytes(ns[0])| - 1 && end < |s|
    ensures WellFormedList(ns[1..]) && At(s, end + 1, ListBytes(ns[1..]))
    ensures p + |ListBytes(ns)| == end + 1 + |ListBytes(ns[1..])| <= |s|
    ensures ns[1..] == [] ==> p + |ListBytes(ns)| == end + 1
    ensures ns[1..] != [] ==> end + 1 < |s| && s[end + 1] == NODE_START
  {
    end := p + |NodeBytes(ns[0])| - 1;
    AtConcat(s, p, NodeBytes(ns[0]), ListBytes(ns[1..]));
    if ns[1..] != [] {
      ListContinues(s, end + 1, ns[1..]);
    }
  }

  lemma LastSibling(s: seq<Byte>, p: nat, ns: seq<Node>, end: nat)
    requires ns != [] && ns[1..] == []
    requires p < |s| && s[p] == NODE_START && end < |s| && ParseOne(s, p) == Some(OneNode(ns[0], end))
    requires end + 1 == |s| || s[end + 1] == NODE_END
    ensures ParseSiblings(s, p) == Some(Siblings(ns, end + 1))
  {
    SiblingsStep(s, p, ParseOne(s, p), None);
    assert ns == [ns[0]];
  }

  lemma MoreSiblings(s: seq<Byte>, p: nat, ns: seq<Node>, end: nat, next: nat)
    requires ns != [] && p < |s| && s[p] == NODE_START && end + 1 < |s| && ParseOne(s, p) == Some(OneNode(ns[0], end))
    requires s[end + 1] == NODE_START && ParseSiblings(s, end + 1) == Some(Siblings(ns[1..], next))
    ensures ParseSiblings(s, p) == Some(Siblings(ns, next))
  {
    assert ns == [ns[0]] + ns[1..];
  }

  lemma ListContinues(s: seq<Byte>, p: nat, ns: seq<Node>)
    requires ns != [] && At(s, p, ListBytes(ns))
    ensures p < |s| && s[p] == NODE_START
  {
  }

  /** The bytes of a file that reads back as `ns`. Bytes after a NODE_END that follows
      the last root are never looked at. */
  predicate LaidOut(s: seq<Byte>, ns: seq<Node>) {
    var n := |VERSION| + |ListBytes(ns)|;
    && ns != [] && WellFormedList(ns)
    && At(s, 0, VERSION) && At(s, |VERSION|, ListBytes(ns))
    && (n == |s| || s[n] == NODE_END)
  }

  lemma ParseFileSound(s: seq<Byte>)
    requires ParseFile(s).Some?
    ensures LaidOut(s, ParseFile(s).value)
  {
    assert s[0..|VERSION|] == s[..|VERSION|];
    ParseSiblingsSound(s, |VERSION|);
  }

  lemma ParseFileComplete(s: seq<Byte>, ns: seq<Node>)
    requires LaidOut(s, ns)
    ensures ParseFile(s) == Some(ns)
  {
    assert s[0..|VERSION|] == s[..|VERSION|];
    ParseSiblingsComplete(s, |VERSION|, ns);
  }

  /** The accepted language, both ways, for all byte strings and all trees. */
  lemma ParseFileExact(s: seq<Byte>, ns: seq<Node>)
    ensures ParseFile(s) == Some(ns) <==> LaidOut(s, ns)
  {
    if ParseFile(s).Some? {
      ParseFileSound(s);
    }
    if LaidOut(s, ns) {
      ParseFileComplete(s, ns);
    }
  }

  // ---------------------------------------------------------------- writing

  /** What startNode, setProps, the children and endNode write for one plain node. */
  function WriteNode(n: Node): (bytes: seq<Byte>)
    decreases n, 0
  {
    [NODE_START] + (Escape([n.kind]) + (Escape(n.props) + (WriteList(n.children) + [NODE_END])))
  }

  function WriteList(ns: seq<Node>): (bytes: seq<Byte>)
    decreases ns, 1
  {
    if ns == [] then [] else WriteNode(ns[0]) + WriteList(ns[1..])
  }

  /** The bytes of a small file: a root of type 1 whose properties need an escape, and one child. */
  lemma WrittenBytes()
    ensures VERSION + WriteList([Node(1, [0xFE, 5], [Node(2, [0xFD], [])])]) ==
      [0, 0, 0, 0, 0xFE, 1, 0xFD, 0xFE, 5, 0xFE, 2, 0xFD, 0xFD, 0xFF, 0xFF]
  {
    var child := Node(2, [0xFD], []);
    OneWritten(child, []);
    assert WriteNode(child) == [0xFE, 2, 0xFD, 0xFD, 0xFF];
    OneWritten(Node(1, [0xFE, 5], [child]), [child]);
    assert Escape([0xFE, 5]) == [0xFD, 0xFE, 5];
  }

  lemma OneWritten(n: Node, children: seq<Node>)
    requires n.children == children && |children| <= 1
    ensures WriteList([n]) == WriteNode(n)
    ensures children != [] ==> WriteList(children) == WriteNode(children[0])
    ensures children == [] ==> WriteList(children) == []
    ensures n.kind < ESCAPE_CHAR ==> Escape([n.kind]) == [n.kind]
    ensures |n.props| == 1 ==> Escape(n.props) == EscapeByte(n.props[0])
    ensures |n.props| == 2 ==> Escape(n.props) == EscapeByte(n.props[0]) + EscapeByte(n.props[1])
  {
    assert [n][1..] == [] && (children != [] ==> children[1..] == []);
    assert [n.kind][1..] == [];
    if |n.props| == 1 {
      assert n.props[1..] == [];
    } else if |n.props| == 2 {
      assert n.props[1..][1..] == [];
    }
  }

  /** What a reader sees: the parsed tree with every node's properties unescaped. */
  function Decode(n: Node): Node
    decreases n, 0
  {
    Node(n.kind, Unescape(n.props), DecodeList(n.children))
  }

  function DecodeList(ns: seq<Node>): (r: seq<Node>)
    ensures |r| == |ns|
    decreases ns, 1
  {
    if ns == [] then [] else [Decode(ns[0])] + DecodeList(ns[1..])
  }

  /** A run of escape bytes, then an ordinary byte. */
  predicate StartsPlain(props: seq<Byte>) {
    props != [] && (!Special(props[0]) || (props[0] == ESCAPE_CHAR && StartsPlain(props[1..])))
  }

  /** The type byte is escaped when written but read raw, so a type of 0xFE or 0xFF never
      survives; 0xFD does only when the stray escape pairs up again inside the properties. */
  predicate SafeType(n: Node) {
    n.kind < ESCAPE_CHAR || (n.kind == ESCAPE_CHAR && StartsPlain(n.props))
  }

  predicate Safe(n: Node)
    decreases n, 0
  {
    SafeType(n) && SafeList(n.children)
  }

  predicate SafeList(ns: seq<Node>)
    decreases ns, 1
  {
    ns == [] || (Safe(ns[0]) && SafeList(ns[1..]))
  }

  /** The raw tree the parser sees in the bytes written for a safe tree. */
  function Encode(n: Node): Node
    decreases n, 0
  {
    Node(n.kind, RawProps(n.kind, n.props), EncodeList(n.children))
  }

  function EncodeList(ns: seq<Node>): (r: seq<Node>)
    ensures |r| == |ns|
    decreases ns, 1
  {
    if ns == [] then [] else [Encode(ns[0])] + EncodeList(ns[1..])
  }

  lemma EscapedPair(b: Byte, rest: seq<Byte>)
    ensures WellEscaped([ESCAPE_CHAR, b] + rest) <==> WellEscaped(rest)
    ensures Unescape([ESCAPE_CHAR, b] + rest) == [b] + Unescape(rest)
  {
    assert ([ESCAPE_CHAR, b] + rest)[2..] == rest;
  }

  lemma {:induction false} StrayEscape(props: seq<Byte>)
    requires StartsPlain(props)
    ensures WellEscaped([ESCAPE_CHAR] + Escape(props))
    ensures Unescape([ESCAPE_CHAR] + Escape(props)) == props
  {
    var b, rest := props[0], Escape(props[1..]);
    if Special(b) {
      StrayEscape(props[1..]);
      EscapedPair(b, [ESCAPE_CHAR] + rest);
      assert [ESCAPE_CHAR] + ([ESCAPE_CHAR, b] + rest) == [ESCAPE_CHAR, b] + ([ESCAPE_CHAR] + rest);
    } else {
      EscapeRoundTrip(props[1..]);
      EscapedPair(b, rest);
      assert [ESCAPE_CHAR] + ([b] + rest) == [ESCAPE_CHAR, b] + rest;
    }
  }

  lemma EscapeOne(b: Byte)
    ensures Escape([b]) == EscapeByte(b)
  {
    assert [b][1..] == [];
  }

  lemma {:induction false} EncodeNode(n: Node)
    requires Safe(n)
    ensures WriteNode(n) == NodeBytes(Encode(n)) && WellFormed(Encode(n)) && Decode(Encode(n)) == n
    decreases n, 0
  {
    EncodeNodes(n.children);
    EncodeHead(n.kind, n.props, WriteList(n.children) + [NODE_END]);
  }

  /** The raw properties seen behind a safe type byte. */
  function RawProps(kind: Byte, props: seq<Byte>): seq<Byte> {
    (if kind == ESCAPE_CHAR then [ESCAPE_CHAR] else []) + Escape(props)
  }

  lemma TwiceInFront<T>(x: T, a: seq<T>, b: seq<T>)
    ensures [x, x] + (a + b) == [x] + (([x] + a) + b)
  {
  }

  lemma EncodeHead(kind: Byte, props: seq<Byte>, rest: seq<Byte>)
    requires kind < ESCAPE_CHAR || (kind == ESCAPE_CHAR && StartsPlain(props))
    ensures Escape([kind]) + (Escape(props) + rest) == [kind] + (RawProps(kind, props) + rest)
    ensures WellEscaped(RawProps(kind, props)) && Unescape(RawProps(kind, props)) == props
  {
    EscapeOne(kind);
    if kind == ESCAPE_CHAR {
      StrayEscape(props);
      TwiceInFront(kind, Escape(props), rest);
    } else {
      EscapeRoundTrip(props);
      assert [] + Escape(props) == Escape(props);
    }
  }

  lemma {:induction false} EncodeNodes(ns: seq<Node>)
    requires SafeList(ns)
    ensures WriteList(ns) == ListBytes(EncodeList(ns)) && WellFormedList(EncodeList(ns)) &&
      DecodeList(EncodeList(ns)) == ns
    decreases ns, 1
  {
    if ns != [] {
      EncodeNode(ns[0]);
      EncodeNodes(ns[1..]);
      assert EncodeList(ns)[1..] == EncodeList(ns[1..]);
    }
  }

  // ---------------------------------------------------------------- round trip, exactly

  predicate StartsBare(s: seq<Byte>) {
    s != [] && (s[0] == NODE_START || s[0] == NODE_END)
  }

  /** Escaped data ends where the first bare start or end byte stands. */
  lemma {:induction false} UniqueSplit(a: seq<Byte>, x: seq<Byte>, b: seq<Byte>, y: seq<Byte>)
    requires WellEscaped(a) && WellEscaped(b) && StartsBare(x) && StartsBare(y)
    requires a + x == b + y
    ensures a == b && x == y
  {
    assert (a + x)[0] == (b + y)[0];
    if a != [] && b != [] {
      var k := if a[0] == ESCAPE_CHAR then 2 else 1;
      assert |a| >= k && |b| >= k;
      assert a[k..] + x == (a + x)[k..] == (b + y)[k..] == b[k..] + y;
      assert forall i | 0 <= i < k :: a[i] == (a + x)[i] == (b + y)[i] == b[i];
      UniqueSplit(a[k..], x, b[k..], y);
      assert a == a[..k] + a[k..] && b == b[..k] + b[k..];
    } else {
      assert a == [] == b;
      assert x == a + x == b + y == y;
    }
  }

  /** A node of type 0xFD reads back only if its properties absorb the stray escape. */
  lemma {:induction false} StrayEscapeOnly(raw: seq<Byte>, x: seq<Byte>, props: seq<Byte>, y: seq<Byte>)
    requires WellEscaped(raw) && Unescape(raw) == props && StartsBare(x) && StartsBare(y)
    requires raw + x == [ESCAPE_CHAR] + Escape(props) + y
    ensures StartsPlain(props) && x == y
    decreases |raw|
  {
    var whole := raw + x;
    assert whole[0] == ESCAPE_CHAR;
    assert raw != [];
    assert raw[0] == whole[0] && raw[1] == whole[1];
    assert props[0] == raw[1];
    assert Escape(props) == EscapeByte(props[0]) + Escape(props[1..]);
    assert raw[2..] + x == whole[2..];
    assert whole[1] == EscapeByte(props[0])[0];
    assert props[1..] == Unescape(raw[2..]);
    if Special(props[0]) {
      assert props[0] == ESCAPE_CHAR;
      assert whole[2..] == [ESCAPE_CHAR] + Escape(props[1..]) + y;
      StrayEscapeOnly(raw[2..], x, props[1..], y);
    } else {
      assert whole[2..] == Escape(props[1..]) + y;
      EscapeRoundTrip(props[1..]);
      UniqueSplit(raw[2..], x, Escape(props[1..]), y);
    }
  }

  /** Strips one known byte off both sides of an equation. */
  lemma DropHead(a: Byte, x: seq<Byte>, b: Byte, y: seq<Byte>)
    requires [a] + x == [b] + y
    ensures a == b && x == y
  {
    assert ([a] + x)[0] == ([b] + y)[0];
    assert x == ([a] + x)[1..] == ([b] + y)[1..] == y;
  }

  lemma Regroup(k: seq<Byte>, p: seq<Byte>, c: seq<Byte>, t: seq<Byte>)
    ensures ([NODE_START] + (k + (p + (c + [NODE_END])))) + t == [NODE_START] + (k + (p + (c + ([NODE_END] + t))))
  {
  }

  /** What the written head of a node, its type and properties, tells when it reads back. */
  lemma HeadReadsBack(kind: Byte, raw: seq<Byte>, x: seq<Byte>, props: seq<Byte>, y: seq<Byte>)
    requires WellEscaped(raw) && Unescape(raw) == props && StartsBare(x) && StartsBare(y)
    requires [kind] + (raw + x) == EscapeByte(kind) + (Escape(props) + y)
    ensures (kind < ESCAPE_CHAR || (kind == ESCAPE_CHAR && StartsPlain(props))) && x == y
  {
    if Special(kind) {
      assert [ESCAPE_CHAR, kind] + (Escape(props) + y) == [ESCAPE_CHAR] + ([kind] + Escape(props) + y);
      DropHead(kind, raw + x, ESCAPE_CHAR, [kind] + Escape(props) + y);
      StrayEscapeOnly(raw, x, props, y);
    } else {
      DropHead(kind, raw + x, kind, Escape(props) + y);
      EscapeRoundTrip(props);
      UniqueSplit(raw, x, Escape(props), y);
    }
  }

  lemma {:induction false} OnlySafeNode(r: Node, t: seq<Byte>, n: Node, u: seq<Byte>)
    requires WellFormed(r) && Decode(r) == n && NodeBytes(r) + t == WriteNode(n) + u
    ensures Safe(n) && t == u
    decreases n, 0
  {
    var b, w := ListBytes(r.children), WriteList(n.children);
    EscapeOne(n.kind);
    WriteListStart(n.children);
    Regroup([r.kind], r.props, b, t);
    Regroup(EscapeByte(n.kind), Escape(n.props), w, u);
    PiecesReadBack(n.kind, r.props, b, t, n.props, w, u);
    OnlySafeList(r.children, [NODE_END] + t, n.children, [NODE_END] + u);
    DropHead(NODE_END, t, NODE_END, u);
  }

  lemma PiecesReadBack(kind: Byte, raw: seq<Byte>, b: seq<Byte>, t: seq<Byte>, props: seq<Byte>, w: seq<Byte>,
                       u: seq<Byte>)
    requires WellEscaped(raw) && Unescape(raw) == props
    requires (b == [] || b[0] == NODE_START) && (w == [] || w[0] == NODE_START)
    requires [NODE_START] + ([kind] + (raw + (b + ([NODE_END] + t))))
          == [NODE_START] + (EscapeByte(kind) + (Escape(props) + (w + ([NODE_END] + u))))
    ensures (kind < ESCAPE_CHAR || (kind == ESCAPE_CHAR && StartsPlain(props)))
    ensures b + ([NODE_END] + t) == w + ([NODE_END] + u)
  {
    var x, y := b + ([NODE_END] + t), w + ([NODE_END] + u);
    DropHead(NODE_START, [kind] + (raw + x), NODE_START, EscapeByte(kind) + (Escape(props) + y));
    HeadReadsBack(kind, raw, x, props, y);
  }

  lemma WriteListStart(ns: seq<Node>)
    ensures ns != [] ==> WriteList(ns) != [] && WriteList(ns)[0] == NODE_START
  {
    if ns != [] { assert WriteNode(ns[0])[0] == NODE_START; }
  }

  lemma {:induction false} OnlySafeList(rs: seq<Node>, t: seq<Byte>, ns: seq<Node>, u: seq<Byte>)
    requires WellFormedList(rs) && DecodeList(rs) == ns && ListBytes(rs) + t == WriteList(ns) + u
    ensures SafeList(ns) && t == u
    decreases ns, 1
  {
    if ns == [] {
      assert t == ListBytes(rs) + t == WriteList(ns) + u == u;
    } else {
      assert DecodeList(rs)[0] == Decode(rs[0]) && DecodeList(rs)[1..] == DecodeList(rs[1..]);
      var t', u' := ListBytes(rs[1..]) + t, WriteList(ns[1..]) + u;
      assert NodeBytes(rs[0]) + t' == ListBytes(rs) + t == WriteList(ns) + u == WriteNode(ns[0]) + u';
      OnlySafeNode(rs[0], t', ns[0], u');
      OnlySafeList(rs[1..], t, ns[1..], u);
    }
  }

  lemma SafeReadsBack(ns: seq<Node>)
    requires ns != [] && SafeList(ns)
    ensures ParseFile(VERSION + WriteList(ns)) == Some(EncodeList(ns)) && DecodeList(EncodeList(ns)) == ns
  {
    EncodeNodes(ns);
    WrittenLaidOut(EncodeList(ns));
    ParseFileExact(VERSION + WriteList(ns), EncodeList(ns));
  }

  lemma WrittenLaidOut(rs: seq<Node>)
    requires rs != [] && WellFormedList(rs)
    ensures LaidOut(VERSION + ListBytes(rs), rs)
  {
    var s := VERSION + ListBytes(rs);
    assert s[0..|s|] == s;
    AtConcat(s, 0, VERSION, ListBytes(rs));
  }

  lemma OnlySafeReadsBack(ns: seq<Node>, rs: seq<Node>)
    requires ParseFile(VERSION + WriteList(ns)) == Some(rs) && DecodeList(rs) == ns
    ensures SafeList(ns)
  {
    var w, b := WriteList(ns), ListBytes(rs);
    ParseFileExact(VERSION + w, rs);
    BehindVersion(w, b);
    OnlySafeList(rs, w[|b|..], ns, []);
  }

  lemma BehindVersion(w: seq<Byte>, b: seq<Byte>)
    requires At(VERSION + w, |VERSION|, b)
    ensures |b| <= |w| && b + w[|b|..] == w + []
  {
    assert (VERSION + w)[|VERSION|..|VERSION| + |b|] == w[..|b|];
  }

  /** A written tree reads back as itself exactly when every node's type byte is safe. */
  lemma RoundTripExact(ns: seq<Node>)
    requires ns != []
    ensures (exists rs :: ParseFile(VERSION + WriteList(ns)) == Some(rs) && DecodeList(rs) == ns) <==> SafeList(ns)
  {
    if SafeList(ns) {
      SafeReadsBack(ns);
    }
    if rs :| ParseFile(VERSION + WriteList(ns)) == Some(rs) && DecodeList(rs) == ns {
      OnlySafeReadsBack(ns, rs);
    }
  }

  /** A single childless node of type 0xFE is lost: its file does not even open. */
  lemma StartTypeIsLost()
    ensures ParseFile(VERSION + WriteList([Node(NODE_START, [], [])])).None?
  {
    var n := Node(NODE_START, [], []);
    EscapeOne(NODE_START);
    assert [n][1..] == [];
    assert WriteList([n]) == [NODE_START, ESCAPE_CHAR, NODE_START, NODE_END];
    var s := VERSION + WriteList([n]);
    assert s == [0, 0, 0, 0, NODE_START, ESCAPE_CHAR, NODE_START, NODE_END];
    assert ScanProps(s, 6) == Some(6);
    assert ScanProps(s, 8).None?;
    assert ParseOne(s, 6).None?;
    assert ParseSiblings(s, 6).None?;
    assert ParseOne(s, 4).None?;
  }
}

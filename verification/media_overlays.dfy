/** Lookup in a media-overlay tree: the node that narrates a text reference, and the
    node that plays after it. Nodes whose role contains "section" group other nodes
    and are never themselves a result. */
module MediaOverlays {
  import opened Wrappers
  import opened Urls

  /** The audio part of a node: an audio resource and a time range in it. How it is
      derived from the SMIL `audio` element is not part of this model. */
  datatype Clip = Clip(audioResource: Option<Url>, start: Option<real>, end: Option<real>)

  /** A `MediaOverlayNode`: its text reference, roles, clip and ordered children. */
  datatype Node = Node(text: Url, role: seq<string>, clip: Clip, children: seq<Node>)

  /** The overlay tree of one publication: its top-level nodes, in document order. */
  datatype Overlays = Overlays(nodes: seq<Node>)

  /** `found` is the node after the reference; `prevFound` says that the reference was
      matched in this scope but its successor lies beyond it. */
  datatype NextNodeResult = NextNodeResult(found: Option<Node>, prevFound: bool)

  /** `isEquivalent`, the URL equivalence of the toolkit, is a parameter of every lookup. */
  type Equivalence = (Url, Url) -> bool

  predicate IsSection(n: Node) {
    "section" in n.role
  }

  /** A non-section node is matched by the wildcard (no reference) or by an equivalent text. */
  predicate Matches(equiv: Equivalence, ref: Option<Url>, n: Node) {
    ref.None? || equiv(n.text, ref.value)
  }

  // ---------------------------------------------------------------------------
  // Reference definitions

  /** The playable frontier of a list of nodes, in document order: sections are
      replaced by the frontier of their children, other nodes stand for themselves
      (their own children are never reached). */
  function Frontier(nodes: seq<Node>): (f: seq<Node>)
    ensures forall n :: n in f ==> !IsSection(n)
    decreases nodes
  {
    if |nodes| == 0 then []
    else
      assert nodes[0] in nodes;
      (if IsSection(nodes[0]) then Frontier(nodes[0].children) else [nodes[0]]) + Frontier(nodes[1..])
  }

  /** Every node reachable through sections is itself a section. */
  ghost predicate AllSections(nodes: seq<Node>)
    decreases nodes
  {
    forall i :: 0 <= i < |nodes| ==> IsSection(nodes[i]) && AllSections(nodes[i].children)
  }

  /** The first matching node of a flat list. */
  function FirstMatch(equiv: Equivalence, ref: Option<Url>, f: seq<Node>): Option<Node> {
    if |f| == 0 then None
    else if Matches(equiv, ref, f[0]) then Some(f[0])
    else FirstMatch(equiv, ref, f[1..])
  }

  /** The successor search on a flat list: once the reference has been matched
      (`prevFound`), the next node is the answer. */
  function NextAfterMatch(equiv: Equivalence, ref: Option<Url>, f: seq<Node>, prevFound: bool): NextNodeResult {
    if |f| == 0 then NextNodeResult(None, prevFound)
    else if prevFound then NextNodeResult(Some(f[0]), false)
    else NextAfterMatch(equiv, ref, f[1..], Matches(equiv, ref, f[0]))
  }

  // ---------------------------------------------------------------------------
  // The lookups

  /** `findNode`: scans the list in order; the first section met ends the scan with the
      search in that section's children; otherwise the first matching node is the answer. */
  function FindNode(equiv: Equivalence, ref: Option<Url>, nodes: seq<Node>): (r: Option<Node>)
    ensures r.Some? ==> !IsSection(r.value) && Matches(equiv, ref, r.value)
    ensures r.Some? ==> r.value in Frontier(nodes)
    decreases nodes
  {
    if |nodes| == 0 then None
    else
      assert nodes[0] in nodes;
      if IsSection(nodes[0]) then FindNode(equiv, ref, nodes[0].children)
      else if Matches(equiv, ref, nodes[0]) then Some(nodes[0])
      else FindNode(equiv, ref, nodes[1..])
  }

  /** `nodeForFragment`. */
  function NodeForFragment(equiv: Equivalence, overlays: Overlays, ref: Option<Url>): (r: Option<Node>)
    ensures r.Some? ==> !IsSection(r.value) && Matches(equiv, ref, r.value) && r.value in Frontier(overlays.nodes)
  {
    FindNode(equiv, ref, overlays.nodes)
  }

  /** `clip`: the clip of the node found for `ref`, none when no node is found. */
  function ClipFor(equiv: Equivalence, overlays: Overlays, ref: Url): (r: Option<Clip>)
    ensures r.None? <==> FindNode(equiv, Some(ref), overlays.nodes).None?
    ensures r.Some? ==> exists n :: n in Frontier(overlays.nodes) && equiv(n.text, ref) && n.clip == r.value
  {
    match NodeForFragment(equiv, overlays, Some(ref))
    case Some(n) => Some(n.clip)
    case None => None
  }

  /** `getFirstNonSectionChild`, on a list of nodes: the first node of their playable
      frontier, none exactly when that frontier is empty. */
  function FirstNonSection(nodes: seq<Node>): (r: Option<Node>)
    ensures r.None? <==> Frontier(nodes) == []
    ensures r.Some? ==> r.value == Frontier(nodes)[0]
    decreases nodes
  {
    if |nodes| == 0 then None
    else
      assert nodes[0] in nodes;
      if IsSection(nodes[0]) then
        match FirstNonSection(nodes[0].children)
        case Some(c) => Some(c)
        case None => FirstNonSection(nodes[1..])
      else Some(nodes[0])
  }

  /** `getFirstNonSectionChild(node)`: the pre-order-first non-section descendant
      reached through sections. */
  function FirstNonSectionChild(node: Node): (r: Option<Node>)
    ensures r.None? <==> Frontier(node.children) == []
    ensures r.Some? ==> !IsSection(r.value) && r.value == Frontier(node.children)[0]
  {
    FirstNonSection(node.children)
  }

  /** `findNextNode` from the point where the loop has set `prevNodeFoundFlag` to `prevFound`. */
  function FindNextFrom(equiv: Equivalence, ref: Option<Url>, nodes: seq<Node>, prevFound: bool): (r: NextNodeResult)
    ensures r.found.Some? ==> !r.prevFound && !IsSection(r.found.value) && r.found.value in Frontier(nodes)
    ensures r.found.None? && |Frontier(nodes)| == 0 ==> r.prevFound == prevFound
    decreases nodes
  {
    if |nodes| == 0 then NextNodeResult(None, prevFound)
    else
      assert nodes[0] in nodes;
      var node := nodes[0];
      if prevFound then
        if IsSection(node) then
          match FirstNonSectionChild(node)
          case Some(c) => NextNodeResult(Some(c), false)
          case None => FindNextFrom(equiv, ref, nodes[1..], true)
        else NextNodeResult(Some(node), false)
      else if IsSection(node) then
        var ret := FindNextFrom(equiv, ref, node.children, false);
        if ret.found.Some? then NextNodeResult(ret.found, false)
        else FindNextFrom(equiv, ref, nodes[1..], ret.prevFound)
      else FindNextFrom(equiv, ref, nodes[1..], Matches(equiv, ref, node))
  }

  /** `findNextNode(fragment, inNodes)`. */
  function FindNextNode(equiv: Equivalence, ref: Option<Url>, nodes: seq<Node>): (r: NextNodeResult)
    ensures r.found.Some? ==> !r.prevFound && !IsSection(r.found.value) && r.found.value in Frontier(nodes)
    ensures |Frontier(nodes)| == 0 ==> r == NextNodeResult(None, false)
  {
    FindNextFrom(equiv, ref, nodes, false)
  }

  /** `nodeAfterFragment`. */
  function NodeAfterFragment(equiv: Equivalence, overlays: Overlays, ref: Option<Url>): (r: Option<Node>)
    ensures r.Some? ==> !IsSection(r.value) && r.value in Frontier(overlays.nodes)
  {
    FindNextNode(equiv, ref, overlays.nodes).found
  }
}

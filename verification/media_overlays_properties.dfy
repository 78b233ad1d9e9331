/** The media-overlay lookups against the playable frontier of the tree. */
module MediaOverlaysProperties {
  import opened Wrappers
  import opened Urls
  import opened MediaOverlays

  lemma {:induction false} FrontierAppend(a: seq<Node>, b: seq<Node>)
    ensures Frontier(a + b) == Frontier(a) + Frontier(b)
  {
    if |a| > 0 {
      assert (a + b)[0] == a[0];
      assert (a + b)[1..] == a[1..] + b;
      FrontierAppend(a[1..], b);
    } else {
      assert a + b == b;
    }
  }

  /** The frontier is empty exactly when every node reached through sections is a section. */
  lemma {:induction false} FrontierEmptyIffAllSections(nodes: seq<Node>)
    ensures Frontier(nodes) == [] <==> AllSections(nodes)
    decreases nodes
  {
    if |nodes| > 0 {
      assert nodes[0] in nodes;
      FrontierEmptyIffAllSections(nodes[0].children);
      FrontierEmptyIffAllSections(nodes[1..]);
      assert AllSections(nodes) <==>
             IsSection(nodes[0]) && AllSections(nodes[0].children) && AllSections(nodes[1..]) by {
        forall i | 0 < i < |nodes| ensures nodes[i] == nodes[1..][i - 1] { }
      }
    }
  }

  /** `getFirstNonSectionChild` gives nothing exactly when every descendant reached
      through sections is a section; otherwise it is the first node of the frontier. */
  lemma {:induction false} FirstNonSectionChildSpec(node: Node)
    ensures FirstNonSectionChild(node).None? <==> AllSections(node.children)
    ensures FirstNonSectionChild(node).Some? ==>
              var f := Frontier(node.children); |f| > 0 && FirstNonSectionChild(node) == Some(f[0])
  {
    FrontierEmptyIffAllSections(node.children);
  }

  // ---------------------------------------------------------------------------
  // findNode

  lemma {:induction false} FirstMatchAppend(equiv: Equivalence, ref: Option<Url>, a: seq<Node>, b: seq<Node>)
    ensures FirstMatch(equiv, ref, a + b) ==
            (if FirstMatch(equiv, ref, a).Some? then FirstMatch(equiv, ref, a) else FirstMatch(equiv, ref, b))
  {
    if |a| > 0 {
      assert (a + b)[0] == a[0];
      assert (a + b)[1..] == a[1..] + b;
      FirstMatchAppend(equiv, ref, a[1..], b);
    } else {
      assert a + b == b;
    }
  }

  /** Whatever `findNode` returns is the first matching node of the whole frontier:
      nothing earlier in document order matches. */
  lemma {:induction false} FindNodeIsFirstFrontierMatch(equiv: Equivalence, ref: Option<Url>, nodes: seq<Node>)
    requires FindNode(equiv, ref, nodes).Some?
    ensures FindNode(equiv, ref, nodes) == FirstMatch(equiv, ref, Frontier(nodes))
    decreases nodes
  {
    assert nodes[0] in nodes;
    var head := if IsSection(nodes[0]) then Frontier(nodes[0].children) else [nodes[0]];
    assert Frontier(nodes) == head + Frontier(nodes[1..]);
    FirstMatchAppend(equiv, ref, head, Frontier(nodes[1..]));
    if IsSection(nodes[0]) {
      FindNodeIsFirstFrontierMatch(equiv, ref, nodes[0].children);
    } else if !Matches(equiv, ref, nodes[0]) {
      FindNodeIsFirstFrontierMatch(equiv, ref, nodes[1..]);
    }
  }

  /** The first section met before a match ends the scan: the result is the search in
      that section's children, even when that finds nothing, and the later siblings
      are never looked at. */
  lemma {:induction false} FindNodeStopsAtFirstSection(equiv: Equivalence, ref: Option<Url>, nodes: seq<Node>, i: int)
    requires 0 <= i < |nodes| && IsSection(nodes[i])
    requires forall j :: 0 <= j < i ==> !IsSection(nodes[j]) && !Matches(equiv, ref, nodes[j])
    ensures FindNode(equiv, ref, nodes) == FindNode(equiv, ref, nodes[i].children)
    ensures FindNode(equiv, ref, nodes) == FindNode(equiv, ref, nodes[..i + 1])
  {
    if i > 0 {
      assert nodes[1..][i - 1] == nodes[i];
      assert nodes[1..][..i] == nodes[..i + 1][1..];
      FindNodeStopsAtFirstSection(equiv, ref, nodes[1..], i - 1);
    }
  }

  /** Because of that early stop, `findNode` misses a matching node that follows a
      section with no match in it, although that node is the first match of the frontier. */
  lemma {:induction false} FindNodeMissesMatchAfterSection(equiv: Equivalence, ref: Option<Url>, section: Node, a: Node)
    requires IsSection(section) && FirstMatch(equiv, ref, Frontier(section.children)).None?
    requires !IsSection(a) && Matches(equiv, ref, a)
    ensures FindNode(equiv, ref, [section, a]).None?
    ensures FirstMatch(equiv, ref, Frontier([section, a])) == Some(a)
  {
    if FindNode(equiv, ref, section.children).Some? {
      FindNodeIsFirstFrontierMatch(equiv, ref, section.children);
    }
    assert [section, a][1..] == [a];
    assert Frontier([a]) == [a] + Frontier([]);
    assert Frontier([section, a]) == Frontier(section.children) + [a];
    FirstMatchAppend(equiv, ref, Frontier(section.children), [a]);
  }

  /** A matching node with only non-matching, non-section nodes before it is found. */
  lemma {:induction false} FindNodeFindsLeadingMatch(equiv: Equivalence, ref: Option<Url>, nodes: seq<Node>, j: int)
    requires 0 <= j < |nodes| && !IsSection(nodes[j]) && Matches(equiv, ref, nodes[j])
    requires forall k :: 0 <= k < j ==> !IsSection(nodes[k]) && !Matches(equiv, ref, nodes[k])
    ensures FindNode(equiv, ref, nodes) == Some(nodes[j])
  {
    if j > 0 {
      assert nodes[1..][j - 1] == nodes[j];
      FindNodeFindsLeadingMatch(equiv, ref, nodes[1..], j - 1);
    }
  }

  /** A list of non-section nodes none of which matches gives nothing. */
  lemma {:induction false} FindNodeNoSectionNoMatch(equiv: Equivalence, ref: Option<Url>, nodes: seq<Node>)
    requires forall k :: 0 <= k < |nodes| ==> !IsSection(nodes[k]) && !Matches(equiv, ref, nodes[k])
    ensures FindNode(equiv, ref, nodes).None?
  {
    if |nodes| > 0 {
      assert forall k :: 0 <= k < |nodes[1..]| ==> nodes[1..][k] == nodes[k + 1];
      FindNodeNoSectionNoMatch(equiv, ref, nodes[1..]);
    }
  }

  /** The wildcard query gives the first node when it is not a section; an empty list gives nothing. */
  lemma FindNodeWildcard(equiv: Equivalence, nodes: seq<Node>)
    ensures |nodes| == 0 ==> FindNode(equiv, None, nodes).None?
    ensures |nodes| > 0 && !IsSection(nodes[0]) ==> FindNode(equiv, None, nodes) == Some(nodes[0])
  {
  }

  /** `clip(ref)` is the clip of the first matching node of the frontier whenever a node is found. */
  lemma {:induction false} ClipOfFirstMatch(equiv: Equivalence, overlays: Overlays, ref: Url)
    requires ClipFor(equiv, overlays, ref).Some?
    ensures var m := FirstMatch(equiv, Some(ref), Frontier(overlays.nodes));
            m.Some? && ClipFor(equiv, overlays, ref) == Some(m.value.clip)
  {
    FindNodeIsFirstFrontierMatch(equiv, Some(ref), overlays.nodes);
  }

  // ---------------------------------------------------------------------------
  // findNextNode

  lemma {:induction false} NextAfterMatchAppend(equiv: Equivalence, ref: Option<Url>, a: seq<Node>, b: seq<Node>, prevFound: bool)
    ensures NextAfterMatch(equiv, ref, a + b, prevFound) ==
            (var ra := NextAfterMatch(equiv, ref, a, prevFound);
             if ra.found.Some? then ra else NextAfterMatch(equiv, ref, b, ra.prevFound))
  {
    if |a| > 0 {
      assert (a + b)[0] == a[0];
      assert (a + b)[1..] == a[1..] + b;
      if !prevFound {
        NextAfterMatchAppend(equiv, ref, a[1..], b, Matches(equiv, ref, a[0]));
      }
    } else {
      assert a + b == b;
    }
  }

  /** `findNextNode`, flag and all, is the successor search on the playable frontier:
      sections are crossed as if the tree were flat. */
  lemma {:induction false} FindNextFromIsFrontierSearch(equiv: Equivalence, ref: Option<Url>, nodes: seq<Node>, prevFound: bool)
    ensures FindNextFrom(equiv, ref, nodes, prevFound) == NextAfterMatch(equiv, ref, Frontier(nodes), prevFound)
    decreases nodes
  {
    if |nodes| > 0 {
      assert nodes[0] in nodes;
      var node := nodes[0];
      var rest := Frontier(nodes[1..]);
      FindNextFromIsFrontierSearch(equiv, ref, nodes[1..], true);
      FindNextFromIsFrontierSearch(equiv, ref, nodes[1..], false);
      if IsSection(node) {
        var inner := Frontier(node.children);
        assert Frontier(nodes) == inner + rest;
        NextAfterMatchAppend(equiv, ref, inner, rest, prevFound);
        FindNextFromIsFrontierSearch(equiv, ref, node.children, false);
      } else {
        assert Frontier(nodes) == [node] + rest;
        assert ([node] + rest)[1..] == rest;
      }
    }
  }

  /** The successor search on a flat list, by position: after the first match at `j`
      comes `f[j + 1]`; a match in last position reports `prevFound`; no match reports nothing. */
  lemma {:induction false} NextAfterFirstMatch(equiv: Equivalence, ref: Option<Url>, f: seq<Node>, j: int)
    requires 0 <= j < |f| && Matches(equiv, ref, f[j])
    requires forall k :: 0 <= k < j ==> !Matches(equiv, ref, f[k])
    ensures NextAfterMatch(equiv, ref, f, false) ==
            if j + 1 < |f| then NextNodeResult(Some(f[j + 1]), false) else NextNodeResult(None, true)
  {
    if j > 0 {
      assert f[1..][j - 1] == f[j];
      NextAfterFirstMatch(equiv, ref, f[1..], j - 1);
    } else if |f| > 1 {
      assert f[1..][0] == f[1];
    }
  }

  lemma {:induction false} NextAfterNoMatch(equiv: Equivalence, ref: Option<Url>, f: seq<Node>)
    requires forall k :: 0 <= k < |f| ==> !Matches(equiv, ref, f[k])
    ensures NextAfterMatch(equiv, ref, f, false) == NextNodeResult(None, false)
  {
    if |f| > 0 {
      assert forall k :: 0 <= k < |f[1..]| ==> f[1..][k] == f[k + 1];
      NextAfterNoMatch(equiv, ref, f[1..]);
    }
  }

  /** No match anywhere in the frontier gives `(null, false)`. */
  lemma {:induction false} FindNextNodeWithoutMatch(equiv: Equivalence, ref: Option<Url>, nodes: seq<Node>)
    requires forall k :: 0 <= k < |Frontier(nodes)| ==> !Matches(equiv, ref, Frontier(nodes)[k])
    ensures FindNextNode(equiv, ref, nodes) == NextNodeResult(None, false)
  {
    FindNextFromIsFrontierSearch(equiv, ref, nodes, false);
    NextAfterNoMatch(equiv, ref, Frontier(nodes));
  }

  /** `findNextNode` in terms of the frontier `f` of the scope: the node after the first
      match at `j` is `f[j + 1]`, crossing section boundaries; a match with no successor
      in scope gives `(null, true)`, so that the enclosing scope continues. */
  lemma {:induction false} FindNextNodeAfterMatch(equiv: Equivalence, ref: Option<Url>, nodes: seq<Node>, j: int)
    requires 0 <= j < |Frontier(nodes)| && Matches(equiv, ref, Frontier(nodes)[j])
    requires forall k :: 0 <= k < j ==> !Matches(equiv, ref, Frontier(nodes)[k])
    ensures var f := Frontier(nodes);
            FindNextNode(equiv, ref, nodes) ==
              if j + 1 < |f| then NextNodeResult(Some(f[j + 1]), false) else NextNodeResult(None, true)
  {
    FindNextFromIsFrontierSearch(equiv, ref, nodes, false);
    NextAfterFirstMatch(equiv, ref, Frontier(nodes), j);
  }

  /** After a match, a following section is entered: `[A, B(section [C, D])]` queried
      at A gives C, not B. */
  lemma {:induction false} SuccessorEntersSection(equiv: Equivalence, ref: Url, a: Node, b: Node, c: Node, d: Node)
    requires !IsSection(a) && equiv(a.text, ref)
    requires IsSection(b) && b.children == [c, d] && !IsSection(c)
    ensures FindNextNode(equiv, Some(ref), [a, b]) == NextNodeResult(Some(c), false)
  {
    assert [a, b][0] == a && [a, b][1..] == [b];
    assert [b][0] == b;
    assert [c, d][0] == c;
    assert FirstNonSectionChild(b) == Some(c);
    assert Matches(equiv, Some(ref), a);
    assert FindNextFrom(equiv, Some(ref), [a, b], false) == FindNextFrom(equiv, Some(ref), [b], true);
  }
}

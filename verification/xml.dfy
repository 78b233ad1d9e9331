/** The already-parsed XML element tree the package parser reads (the source's `ElementNode`). */
module Xml {
  import opened Wrappers

  /** The OPF namespace, `Namespaces.OPF`. */
  const OPF := "http://www.idpf.org/2007/opf"

  /** An element: namespace-qualified name, attributes by name, ordered children. */
  datatype Element = Element(name: string, namespace: string, attributes: map<string, string>, children: seq<Element>)

  /** `getAttr(name)`: the attribute's value, or none when the element does not carry it. */
  function GetAttr(e: Element, name: string): (r: Option<string>)
    ensures r.Some? <==> name in e.attributes
    ensures r.Some? ==> r.value == e.attributes[name]
  {
    if name in e.attributes then Some(e.attributes[name]) else None
  }

  /** `ElementNode.id`: the element's `id` attribute. */
  function Id(e: Element): Option<string> {
    GetAttr(e, "id")
  }

  predicate HasName(e: Element, name: string, namespace: string) {
    e.name == name && e.namespace == namespace
  }

  /** `get(name, namespace)`: the children with that name, in document order. */
  function Get(e: Element, name: string, namespace: string): (r: seq<Element>)
    ensures forall c :: c in r <==> c in e.children && HasName(c, name, namespace)
  {
    Named(e.children, name, namespace)
  }

  function Named(cs: seq<Element>, name: string, namespace: string): (r: seq<Element>)
    ensures forall c :: c in r <==> c in cs && HasName(c, name, namespace)
    ensures |r| <= |cs|
  {
    if |cs| == 0 then []
    else if HasName(cs[0], name, namespace) then [cs[0]] + Named(cs[1..], name, namespace)
    else Named(cs[1..], name, namespace)
  }

  /** `getFirst(name, namespace)`: the first child with that name, or none when there is none. */
  function GetFirst(e: Element, name: string, namespace: string): (r: Option<Element>)
    ensures r.None? <==> forall i :: 0 <= i < |e.children| ==> !HasName(e.children[i], name, namespace)
    ensures r.Some? ==> exists i :: 0 <= i < |e.children| && e.children[i] == r.value
                                    && HasName(r.value, name, namespace)
                                    && forall j :: 0 <= j < i ==> !HasName(e.children[j], name, namespace)
  {
    FirstNamed(e.children, name, namespace)
  }

  function FirstNamed(cs: seq<Element>, name: string, namespace: string): (r: Option<Element>)
    ensures r.None? <==> forall i :: 0 <= i < |cs| ==> !HasName(cs[i], name, namespace)
    ensures r.Some? ==> exists i :: 0 <= i < |cs| && cs[i] == r.value
                                    && HasName(r.value, name, namespace)
                                    && forall j :: 0 <= j < i ==> !HasName(cs[j], name, namespace)
  {
    if |cs| == 0 then None
    else if HasName(cs[0], name, namespace) then Some(cs[0])
    else
      var r := FirstNamed(cs[1..], name, namespace);
      if r.Some? then
        var i :| 0 < i + 1 <= |cs[1..]| && cs[1..][i] == r.value && HasName(r.value, name, namespace)
                && forall j :: 0 <= j < i ==> !HasName(cs[1..][j], name, namespace);
        assert cs[i + 1] == r.value;
        assert forall j :: 0 <= j < i + 1 ==> !HasName(cs[j], name, namespace) by {
          forall j | 0 < j < i + 1 ensures !HasName(cs[j], name, namespace) {
            assert cs[j] == cs[1..][j - 1];
          }
        }
        r
      else
        assert forall i :: 0 <= i < |cs| ==> !HasName(cs[i], name, namespace) by {
          forall i | 0 < i < |cs| ensures !HasName(cs[i], name, namespace) {
            assert cs[i] == cs[1..][i - 1];
          }
        }
        r
  }

  /** Selecting children by name handles each child on its own. */
  lemma {:induction false} NamedAppend(a: seq<Element>, b: seq<Element>, name: string, namespace: string)
    ensures Named(a + b, name, namespace) == Named(a, name, namespace) + Named(b, name, namespace)
  {
    if |a| > 0 {
      assert (a + b)[0] == a[0];
      assert (a + b)[1..] == a[1..] + b;
      NamedAppend(a[1..], b, name, namespace);
    } else {
      assert a + b == b;
    }
  }
}

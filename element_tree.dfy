/**
  The part of an XML element tree that the metadata editor touches: an
  element has a tag, an optional text, attributes and an ordered list of
  children, and all four are updated in place.
 */
module ElementTree {
  import opened Wrappers

  class Element {
    var tag: string
    var text: Option<string>
    var attrib: map<string, string>
    var children: seq<Element>

    /** A new element with no text, no attributes and no children. */
    constructor (tag: string)
      ensures this.tag == tag && text == None && attrib == map[] && children == []
    {
      this.tag := tag;
      text := None;
      attrib := map[];
      children := [];
    }

    /** Adds `child` as the last child. */
    method Append(child: Element)
      modifies this
      ensures children == old(children) + [child]
      ensures tag == old(tag) && text == old(text) && attrib == old(attrib)
    {
      children := children + [child];
    }

    /** Sets one attribute, overwriting an earlier value for the same key. */
    method Set(key: string, value: string)
      modifies this
      ensures attrib == old(attrib)[key := value]
      ensures tag == old(tag) && text == old(text) && children == old(children)
    {
      attrib := attrib[key := value];
    }
  }

  /** A new element appended as the last child of `parent`. */
  method SubElement(parent: Element, tag: string) returns (child: Element)
    modifies parent
    ensures fresh(child)
    ensures child.tag == tag && child.text == None && child.attrib == map[] && child.children == []
    ensures parent.children == old(parent.children) + [child]
    ensures parent.tag == old(parent.tag) && parent.text == old(parent.text) && parent.attrib == old(parent.attrib)
  {
    child := new Element(tag);
    parent.Append(child);
  }

  /** Sets every attribute of `attrs` on `e`, one key at a time. */
  method SetAll(e: Element, attrs: map<string, string>)
    modifies e
    ensures e.attrib == old(e.attrib) + attrs
    ensures e.tag == old(e.tag) && e.text == old(e.text) && e.children == old(e.children)
  {
    var todo := attrs.Keys;
    while todo != {}
      invariant todo <= attrs.Keys
      invariant e.attrib == old(e.attrib) + map k | k in attrs.Keys - todo :: attrs[k]
      invariant e.tag == old(e.tag) && e.text == old(e.text) && e.children == old(e.children)
      decreases todo
    {
      var k :| k in todo;
      e.Set(k, attrs[k]);
      todo := todo - {k};
    }
    assert attrs.Keys - todo == attrs.Keys;
    assert (map k | k in attrs.Keys :: attrs[k]) == attrs;
  }

  /**
    There is a chain of children from `e` whose tags spell `path`, one tag
    per level: the paths `a/b/c` that `find` resolves without wildcards.
   */
  ghost predicate HasPath(e: Element, path: seq<string>)
    reads *
    decreases |path|
  {
    path == [] ||
    exists i :: 0 <= i < |e.children| && e.children[i].tag == path[0] && HasPath(e.children[i], path[1..])
  }

  /** `x` is at the end of a chain of children from `e` whose tags spell `path`. */
  ghost predicate Reaches(e: Element, path: seq<string>, x: Element)
    reads *
    decreases |path|
  {
    if path == [] then x == e
    else exists i :: 0 <= i < |e.children| && e.children[i].tag == path[0] && Reaches(e.children[i], path[1..], x)
  }

  /**
    An element reached from `e` along `path`, searching the children in
    document order, or None when no chain of children spells `path`.
   */
  method Find(e: Element, path: seq<string>) returns (r: Option<Element>)
    ensures r.Some? <==> HasPath(e, path)
    ensures r.Some? ==> Reaches(e, path, r.value)
    ensures path == [] ==> r == Some(e)
    ensures r.Some? && path != [] ==> r.value.tag == path[|path| - 1]
    decreases |path|
  {
    if path == [] {
      return Some(e);
    }
    var i := 0;
    while i < |e.children|
      invariant 0 <= i <= |e.children|
      invariant forall j :: 0 <= j < i && e.children[j].tag == path[0] ==> !HasPath(e.children[j], path[1..])
    {
      var c := e.children[i];
      if c.tag == path[0] {
        var sub := Find(c, path[1..]);
        if sub.Some? {
          assert Reaches(e, path, sub.value) by {
            assert e.children[i].tag == path[0] && Reaches(e.children[i], path[1..], sub.value);
          }
          return sub;
        }
      }
      i := i + 1;
    }
    return None;
  }
}

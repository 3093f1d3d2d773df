/**
  The metadata editor: one text-update request applied in place to every
  element a path matched, and the fallback that creates an abstract when a
  record has none.
 */
module MetadataUpdate {
  import opened Wrappers
  import opened ElementTree
  import opened MetadataText

  /** The child to create in `add` mode: its tag and, optionally, its attributes. */
  datatype SubElementSpec = SubElementSpec(name: string, attributes: Option<map<string, string>>)

  /** The attributes the new child ends up with: none when the request gives none. */
  function NewAttributes(sub: SubElementSpec): (attrs: map<string, string>) {
    if sub.attributes.Some? then sub.attributes.value else map[]
  }

  /** What one request does to one matched element's text, and whether that element is counted. */
  datatype Outcome = Outcome(text: Option<string>, counted: bool)

  /**
    One request on one element's text: only `update` and `replace` change
    it, and it is absent afterwards exactly when it was absent and the mode
    is not `replace`.
   */
  function ApplyToText(mode: string, text: Option<string>, t: string): (o: Outcome)
    ensures o.text != text ==> mode == "update" || mode == "replace"
    ensures o.text.None? <==> text.None? && mode != "replace"
  {
    if mode == "update" then
      if text.None? then Outcome(None, false)
      else var u := UpdateRule(text.value, t); Outcome(Some(u.text), u.counted)
    else if mode == "replace" then Outcome(Some(t), true)
    else if mode == "add" then Outcome(text, true)
    else Outcome(text, false)
  }

  /**
    An element is counted in `replace` and `add` mode, and in `update` mode
    exactly when its text is present and takes the placeholder or the
    append branch.
   */
  lemma CountedModes(mode: string, text: Option<string>, t: string)
    ensures ApplyToText(mode, text, t).counted <==>
      || mode == "replace" || mode == "add"
      || (mode == "update" && text.Some? && CountedUpdate(text.value))
  {
  }

  /** The number of elements, with the given texts, that one request counts. */
  function CountOf(mode: string, texts: seq<Option<string>>, t: string): (n: nat)
    ensures n <= |texts|
  {
    if texts == [] then 0
    else CountOf(mode, texts[..|texts| - 1], t) + (if ApplyToText(mode, texts[|texts| - 1], t).counted then 1 else 0)
  }

  /** Counting one more element adds one exactly when that element is counted. */
  lemma CountOfExtend(mode: string, texts: seq<Option<string>>, k: nat, t: string)
    requires k < |texts|
    ensures CountOf(mode, texts[..k + 1], t) == CountOf(mode, texts[..k], t) + (if ApplyToText(mode, texts[k], t).counted then 1 else 0)
  {
    assert texts[..k + 1][..k] == texts[..k];
  }

  /** In `replace` and `add` mode every matched element is counted. */
  lemma {:induction false} ReplaceAndAddCountAll(mode: string, texts: seq<Option<string>>, t: string)
    requires mode == "replace" || mode == "add"
    ensures CountOf(mode, texts, t) == |texts|
  {
    if texts != [] {
      ReplaceAndAddCountAll(mode, texts[..|texts| - 1], t);
    }
  }

  /** An unrecognised mode counts nothing and leaves every text as it was. */
  lemma {:induction false} UnknownModeChangesNothing(mode: string, texts: seq<Option<string>>, t: string)
    requires mode != "update" && mode != "replace" && mode != "add"
    ensures CountOf(mode, texts, t) == 0
    ensures forall i :: 0 <= i < |texts| ==> ApplyToText(mode, texts[i], t).text == texts[i]
  {
    if texts != [] {
      UnknownModeChangesNothing(mode, texts[..|texts| - 1], t);
    }
  }

  /**
    In `update` mode an element without text is skipped: it keeps no text
    and does not add to the count.
   */
  lemma {:induction false} UpdateSkipsMissingText(texts: seq<Option<string>>, t: string)
    ensures CountOf("update", texts + [None], t) == CountOf("update", texts, t)
    ensures ApplyToText("update", None, t).text == None
  {
    assert (texts + [None])[..|texts|] == texts;
  }

  /**
    In `update` mode the count is the number of texts that are present and
    take the placeholder or the append branch; all others are left out.
   */
  lemma {:induction false} UpdateCountsRequiredAndAppended(texts: seq<Option<string>>, t: string)
    ensures CountOf("update", texts, t) == |set i | 0 <= i < |texts| && CountedText(texts[i])|
  {
    if texts != [] {
      UpdateCountsRequiredAndAppended(texts[..|texts| - 1], t);
      CountedModes("update", texts[|texts| - 1], t);
      CountedIndicesSnoc(texts);
    }
  }

  /** The counted positions of `texts` are those of all but its last text, plus the last if it is counted. */
  lemma CountedIndicesSnoc(texts: seq<Option<string>>)
    requires texts != []
    ensures var n := |texts| - 1;
      |set i | 0 <= i < |texts| && CountedText(texts[i])|
      == |set i | 0 <= i < n && CountedText(texts[..n][i])| + (if CountedText(texts[n]) then 1 else 0)
  {
    var n := |texts| - 1;
    var before := set i | 0 <= i < n && CountedText(texts[..n][i]);
    var after := set i | 0 <= i < |texts| && CountedText(texts[i]);
    assert before == set i | 0 <= i < n && CountedText(texts[i]);
    if CountedText(texts[n]) {
      assert after == before + {n};
    } else {
      assert after == before;
    }
  }

  /** A present text that `update` counts: a placeholder, or one that gets a sentence appended. */
  predicate CountedUpdate(s: string) {
    StartsWith(s, Required) || !(EndsWith(s, EscapedDivs) || EndsWith(s, RawDivs))
  }

  /** An element's text that `update` counts: present, and counted by the rule. */
  predicate CountedText(text: Option<string>) {
    text.Some? && CountedUpdate(text.value)
  }

  /** The texts of `es`, in order. */
  function TextsOf(es: seq<Element>): (ts: seq<Option<string>>)
    reads es
    ensures |ts| == |es| && forall i :: 0 <= i < |es| ==> ts[i] == es[i].text
  {
    seq(|es|, i reads es requires 0 <= i < |es| => es[i].text)
  }

  /** The child that `add` mode creates: tag, attributes and text as requested, no children. */
  ghost predicate IsNewChild(c: Element, sub: SubElementSpec, t: string)
    reads c
  {
    c.tag == sub.name && c.attrib == NewAttributes(sub) && c.text == Some(t) && c.children == []
  }

  predicate Distinct(es: seq<Element>) {
    forall i, j :: 0 <= i < j < |es| ==> es[i] != es[j]
  }

  /**
    Applies one request to one matched element: its text as the mode says,
    and in `add` mode one new last child.
   */
  method UpdateElement(element: Element, t: string, mode: string, sub: SubElementSpec) returns (counted: bool)
    modifies element
    ensures counted == ApplyToText(mode, old(element.text), t).counted
    ensures Updated(element, mode, t, sub)
  {
    counted := false;
    if mode == "update" {
      if element.text.Some? {
        var u := UpdateRule(element.text.value, t);
        element.text := Some(u.text);
        counted := u.counted;
      }
    } else if mode == "replace" {
      element.text := Some(t);
      counted := true;
    } else if mode == "add" {
      var child := SubElement(element, sub.name);
      if sub.attributes.Some? {
        SetAll(child, sub.attributes.value);
      }
      child.text := Some(t);
      counted := true;
    }
  }

  /** The last child of `e`, if it has one: where `add` mode puts the new child. */
  function LastChild(e: Element): (last: set<Element>)
    reads e
  {
    if e.children == [] then {} else {e.children[|e.children| - 1]}
  }

  /**
    `e` has been through one request: tag and attributes as before, text as
    `ApplyToText` says, children as before except that `add` mode appends
    one new child with the requested tag, attributes and text.
   */
  twostate predicate Updated(e: Element, mode: string, t: string, sub: SubElementSpec)
    reads e, LastChild(e)
  {
    && e.tag == old(e.tag) && e.attrib == old(e.attrib)
    && e.text == ApplyToText(mode, old(e.text), t).text
    && (mode != "add" ==> e.children == old(e.children))
    && (mode == "add" ==>
         && e.children != []
         && e.children == old(e.children) + [e.children[|e.children| - 1]]
         && fresh(e.children[|e.children| - 1])
         && IsNewChild(e.children[|e.children| - 1], sub, t))
  }

  /**
    Applies one request (`update`, `replace` or `add`, with new text `t`) to
    every matched element, in order, and returns how many it counted.
   */
  method UpdateMetadata(elements: seq<Element>, t: string, mode: string, sub: SubElementSpec) returns (count: nat)
    requires Distinct(elements)
    modifies elements
    ensures count == CountOf(mode, old(TextsOf(elements)), t)
    ensures forall i :: 0 <= i < |elements| ==> Updated(elements[i], mode, t, sub)
  {
    ghost var texts := TextsOf(elements);
    count := 0;
    var k := 0;
    while k < |elements|
      invariant 0 <= k <= |elements|
      invariant count == CountOf(mode, texts[..k], t)
      invariant forall i :: 0 <= i < k ==> Updated(elements[i], mode, t, sub)
      invariant forall i :: k <= i < |elements| ==> unchanged(elements[i])
    {
      var counted := UpdateElement(elements[k], t, mode, sub);
      // The other matched elements are distinct from this one, so they keep their state.
      forall i | 0 <= i < k
        ensures Updated(elements[i], mode, t, sub)
      {
        assert elements[i] != elements[k];
      }
      forall i | k < i < |elements|
        ensures unchanged(elements[i])
      {
        assert elements[i] != elements[k];
      }
      CountOfExtend(mode, texts, k, t);
      if counted {
        count := count + 1;
      }
      k := k + 1;
    }
    assert texts[..k] == texts;
  }

  /** The three places an abstract may already be: `dataIdInfo/idAbs`, `idinfo/descript/abstract`, `idPurp/idAbs`. */
  const DataIdInfoAbstract := ["dataIdInfo", "idAbs"]
  const IdInfoAbstract := ["idinfo", "descript", "abstract"]
  const PurposeAbstract := ["idPurp", "idAbs"]

  /** The branch the fallback adds: `idinfo` holding `descript` holding an `abstract` with the given text. */
  ghost predicate IsAbstractBranch(idinfo: Element, abstractText: string)
    reads *
  {
    && idinfo.tag == "idinfo" && idinfo.text == None && idinfo.attrib == map[] && |idinfo.children| == 1
    && var descript := idinfo.children[0];
    && descript.tag == "descript" && descript.text == None && descript.attrib == map[] && |descript.children| == 1
    && IsNewChild(descript.children[0], SubElementSpec("abstract", None), abstractText)
  }

  /** Once the branch is a child of `root`, `idinfo/descript/abstract` is found under `root`. */
  lemma AbstractBranchFound(root: Element, abstractText: string)
    requires root.children != [] && IsAbstractBranch(root.children[|root.children| - 1], abstractText)
    ensures HasPath(root, IdInfoAbstract)
  {
    var idinfo := root.children[|root.children| - 1];
    var descript := idinfo.children[0];
    var abs := descript.children[0];
    assert HasPath(abs, IdInfoAbstract[3..]);
    assert HasPath(descript, IdInfoAbstract[2..]) by {
      assert descript.children[0].tag == IdInfoAbstract[2];
    }
    assert HasPath(idinfo, IdInfoAbstract[1..]) by {
      assert idinfo.children[0].tag == IdInfoAbstract[1];
    }
  }

  /**
    Appends `idinfo/descript` to `root` and then applies the fallback's one
    request, `add` an `abstract` child with the given text, to what
    `idinfo/descript` matches.
   */
  method AppendAbstractBranch(root: Element, abstractText: string)
    requires !HasPath(root, ["idinfo"])
    modifies root
    ensures root.tag == old(root.tag) && root.text == old(root.text) && root.attrib == old(root.attrib)
    ensures |root.children| == |old(root.children)| + 1
    ensures root.children[..|root.children| - 1] == old(root.children)
    ensures fresh(root.children[|root.children| - 1])
    ensures IsAbstractBranch(root.children[|root.children| - 1], abstractText)
  {
    var idinfo := new Element("idinfo");
    root.Append(idinfo);
    var descript := new Element("descript");
    idinfo.Append(descript);
    // The root had no `idinfo` child, so `idinfo/descript` now matches `descript` alone.
    var _ := UpdateMetadata([descript], abstractText, "add", SubElementSpec("abstract", None));
    assert root.children[|root.children| - 1] == idinfo;
  }

  /**
    When none of the three abstract paths exists and the root has no
    `idinfo` child, appends `idinfo/descript` to the root and adds an
    `abstract` with the given text under it; otherwise changes nothing.
   */
  method AddMissingAbstract(root: Element, abstractText: string) returns (added: bool)
    modifies root
    ensures added <==> old(
      && !HasPath(root, DataIdInfoAbstract)
      && !HasPath(root, IdInfoAbstract)
      && !HasPath(root, PurposeAbstract)
      && !HasPath(root, ["idinfo"]))
    ensures root.tag == old(root.tag) && root.text == old(root.text) && root.attrib == old(root.attrib)
    ensures !added ==> root.children == old(root.children)
    ensures added ==>
      && |root.children| == |old(root.children)| + 1
      && root.children[..|root.children| - 1] == old(root.children)
      && fresh(root.children[|root.children| - 1])
      && IsAbstractBranch(root.children[|root.children| - 1], abstractText)
      && HasPath(root, IdInfoAbstract)
  {
    var tag1 := Find(root, DataIdInfoAbstract);
    var tag2 := Find(root, IdInfoAbstract);
    var tag3 := Find(root, PurposeAbstract);
    added := false;
    if tag1.None? && tag2.None? && tag3.None? {
      var info := Find(root, ["idinfo"]);
      if info.None? {
        AppendAbstractBranch(root, abstractText);
        AbstractBranchFound(root, abstractText);
        added := true;
      }
    }
  }
}

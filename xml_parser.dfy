/**
 * The title extraction of the Kyoto Wikipedia corpus reader: the children of
 * the document's `tit` element are walked in order; a `j` child stores its
 * text under key "j", and an `e` child whose attributes carry `type="trans"`
 * and `ver="2"` stores its text under key "e". Each store is a plain
 * dictionary assignment, so a later match overwrites an earlier one.
 */
module XmlParser {
  import opened Wrappers

  /** An ElementTree element: tag, attributes, `.text` (None when absent) and children. */
  datatype Element = Element(tag: string, attrs: map<string, string>, text: Option<string>, children: seq<Element>)

  /** The `title_props` dictionary; a stored `.text` of None is kept as a present key. */
  type Props = map<string, Option<string>>

  /** `attrib.get(name)`: None when the attribute is missing. */
  function Get(attrs: map<string, string>, name: string): (r: Option<string>)
    ensures r.Some? <==> name in attrs
    ensures r.Some? ==> r.value == attrs[name]
  {
    if name in attrs then Some(attrs[name]) else None
  }

  /**
   * The selection rule, stated per key: which children write `title_props[key]`.
   * Only the keys "j" and "e" are ever written.
   */
  predicate Selects(child: Element, key: string)
  {
    if key == "j" then child.tag == "j"
    else if key == "e" then
      child.tag == "e" && "type" in child.attrs && child.attrs["type"] == "trans"
      && "ver" in child.attrs && child.attrs["ver"] == "2"
    else false
  }

  /**
   * One pass of the loop body for `child`: the `j` test, then the `e` test with
   * its attribute check. Exactly the keys the child selects are (over)written
   * with its text; every other entry, in particular the other of "j" and "e",
   * is left as it was.
   */
  function Step(props: Props, child: Element): (r: Props)
    ensures forall key :: key in r <==> key in props || Selects(child, key)
    ensures forall key :: key in r ==> r[key] == if Selects(child, key) then child.text else props[key]
  {
    var afterJ := if child.tag == "j" then props["j" := child.text] else props;
    if child.tag == "e" && Get(child.attrs, "type") == Some("trans") && Get(child.attrs, "ver") == Some("2")
    then afterJ["e" := child.text]
    else afterJ
  }

  /** `title_props` after the loop has visited `children` in order, starting from `{}`. */
  function TitleProps(children: seq<Element>): (props: Props)
    ensures props.Keys <= {"j", "e"}
  {
    if |children| == 0 then map[]
    else Step(TitleProps(children[..|children| - 1]), children[|children| - 1])
  }

  /**
   * A key is present exactly when some child selects it, and its value is the
   * text of the last child that does.
   */
  lemma {:induction false} TitlePropsLastMatch(children: seq<Element>, key: string)
    ensures key in TitleProps(children) <==> exists i :: 0 <= i < |children| && Selects(children[i], key)
    ensures forall i ::
              (0 <= i < |children| && Selects(children[i], key)
               && (forall k :: i < k < |children| ==> !Selects(children[k], key)))
              ==> key in TitleProps(children) && TitleProps(children)[key] == children[i].text
  {
    if |children| > 0 {
      var init := children[..|children| - 1];
      TitlePropsLastMatch(init, key);
      forall i | 0 <= i < |init| ensures children[i] == init[i] { }
    }
  }

  /**
   * A child that selects neither key (another tag, or an `e` whose `type` or
   * `ver` is missing or different) has no effect wherever it stands.
   */
  lemma {:induction false} IgnoredChild(before: seq<Element>, child: Element, after: seq<Element>)
    requires !Selects(child, "j") && !Selects(child, "e")
    ensures TitleProps(before + [child] + after) == TitleProps(before + after)
  {
    var withChild, without := before + [child] + after, before + after;
    if |after| == 0 {
      assert withChild[..|withChild| - 1] == before;
      assert without == before;
      var r := TitleProps(withChild);
      assert forall key :: key in r <==> key in TitleProps(before);
    } else {
      IgnoredChild(before, child, after[..|after| - 1]);
      assert withChild[..|withChild| - 1] == before + [child] + after[..|after| - 1];
      assert without[..|without| - 1] == before + after[..|after| - 1];
    }
  }

  /**
   * The script's test on an `e` child, comparing the `.get` results for
   * "type" and "ver" with "trans" and "2", is exactly the selection rule for
   * key "e": both attributes must be present with those values.
   */
  lemma QualifyingEnglish(child: Element)
    ensures (child.tag == "e" && Get(child.attrs, "type") == Some("trans") && Get(child.attrs, "ver") == Some("2"))
            <==> Selects(child, "e")
  {
  }

  /** An `e` child whose `ver` is not "2" never affects the result. */
  lemma WrongVersionIgnored(before: seq<Element>, child: Element, after: seq<Element>)
    requires child.tag == "e" && Get(child.attrs, "ver") != Some("2")
    ensures TitleProps(before + [child] + after) == TitleProps(before + after)
  {
    IgnoredChild(before, child, after);
  }

  /**
   * ElementTree's `find(tag)` on an element whose children are `els`: the
   * first of them with the given tag, if any.
   */
  function FirstWithTag(els: seq<Element>, tag: string): (r: Option<Element>)
    ensures r.None? <==> forall i :: 0 <= i < |els| ==> els[i].tag != tag
    ensures r.Some? ==>
              exists i :: 0 <= i < |els| && els[i] == r.value
                          && r.value.tag == tag && forall k :: 0 <= k < i ==> els[k].tag != tag
  {
    if |els| == 0 then None
    else if els[0].tag == tag then Some(els[0])
    else
      var r := FirstWithTag(els[1..], tag);
      assert forall i :: 1 <= i < |els| ==> els[i] == els[1..][i - 1];
      r
  }

  /**
   * The script from `root.find('tit')` to the end of the loop. A root without
   * a `tit` child makes `find` return None and the loop raise, so the title
   * is required to exist.
   */
  method ExtractTitle(root: Element) returns (titleProps: Props)
    requires FirstWithTag(root.children, "tit").Some?
    ensures titleProps == TitleProps(FirstWithTag(root.children, "tit").value.children)
  {
    var titleEl := FirstWithTag(root.children, "tit").value;
    var children := titleEl.children;
    titleProps := map[];
    for i := 0 to |children|
      invariant titleProps == TitleProps(children[..i])
    {
      var child := children[i];
      if child.tag == "j" {
        titleProps := titleProps["j" := child.text];
      }
      if child.tag == "e" {
        var attrs := child.attrs;
        if Get(attrs, "type") == Some("trans") && Get(attrs, "ver") == Some("2") {
          titleProps := titleProps["e" := child.text];
        }
      }
      assert children[..i + 1][..i] == children[..i];
    }
    assert children[..|children|] == children;
  }

  /** A title with a `j` child and a qualifying `e` child yields both texts. */
  lemma ExampleBothSides()
    ensures var j := Element("j", map[], Some("京都"), []);
            var e := Element("e", map["type" := "trans", "ver" := "2"], Some("Kyoto"), []);
            TitleProps([j, e]) == map["j" := Some("京都"), "e" := Some("Kyoto")]
  {
    var j := Element("j", map[], Some("京都"), []);
    var e := Element("e", map["type" := "trans", "ver" := "2"], Some("Kyoto"), []);
    assert [j, e][..1] == [j] && [j][..0] == [];
  }

  /** An `e` child with `ver="1"` is ignored: only the Japanese side is present. */
  lemma ExampleVersionOne()
    ensures var j := Element("j", map[], Some("京都"), []);
            var e := Element("e", map["type" := "trans", "ver" := "1"], Some("Kyoto"), []);
            TitleProps([j, e]) == map["j" := Some("京都")]
  {
    var j := Element("j", map[], Some("京都"), []);
    var e := Element("e", map["type" := "trans", "ver" := "1"], Some("Kyoto"), []);
    assert [j, e][..1] == [j] && [j][..0] == [];
    assert TitleProps([j]) == Step(map[], j);
    assert Step(map[], j) == map["j" := Some("京都")];
    assert forall key :: !Selects(e, key);
    assert TitleProps([j, e]) == Step(TitleProps([j]), e);
  }
}

/**
 * An abstract parsed HTML document, standing in for the BeautifulSoup tree
 * the scraper walks. A node is either a text string or an element with a tag
 * name, its attributes, its class list (BeautifulSoup keeps `class` as a
 * multi-valued attribute; it is a set here) and its children in markup order.
 *
 * The searches the scraper relies on are modelled after BeautifulSoup's:
 * `find_all` visits the proper descendants of a node in document order
 * (pre-order) and keeps those that match; `find` is the first of them, or
 * nothing. `get_text` concatenates every text node below a node.
 */
module Dom {

  datatype Option<T> = None | Some(value: T)

  datatype Node =
    | Text(content: string)
    | Element(tag: string, attrs: map<string, string>, classes: set<string>, children: seq<Node>)

  /** The three query shapes the scraper uses: `find("thead")`,
      `find("form", {"id": "login_form"})` and `find("a", class_="sortlink")`. */
  datatype Selector =
    | ByTag(name: string)
    | ByAttr(name: string, key: string, value: string)
    | ByClass(name: string, cls: string)

  /** Only elements match; text nodes never do. */
  predicate Matches(n: Node, sel: Selector)
  {
    && n.Element?
    && n.tag == sel.name
    && match sel
       case ByTag(_) => true
       case ByAttr(_, k, v) => k in n.attrs && n.attrs[k] == v
       case ByClass(_, c) => c in n.classes
  }

  /** The proper descendants of `n` in document order. */
  function Descendants(n: Node): seq<Node>
    decreases n, 1
  {
    if n.Text? then [] else DescendantsFrom(n, 0)
  }

  /** The descendants reached through children `i..` of `n`, in document order. */
  function DescendantsFrom(n: Node, i: nat): seq<Node>
    requires n.Element? && i <= |n.children|
    decreases n, 0, |n.children| - i
  {
    if i == |n.children| then []
    else [n.children[i]] + Descendants(n.children[i]) + DescendantsFrom(n, i + 1)
  }

  /** The nodes of `ns` that match `sel`, in their order in `ns`. */
  function Filter(ns: seq<Node>, sel: Selector): (r: seq<Node>)
    ensures |r| <= |ns|
  {
    if ns == [] then []
    else if Matches(ns[0], sel) then [ns[0]] + Filter(ns[1..], sel)
    else Filter(ns[1..], sel)
  }

  /** `i` is the position of the first node of `ns` that matches `sel`. */
  predicate FirstMatchAt(ns: seq<Node>, sel: Selector, i: int)
  {
    0 <= i < |ns| && Matches(ns[i], sel) && forall j :: 0 <= j < i ==> !Matches(ns[j], sel)
  }

  /** `Filter` keeps exactly the matching nodes, and the first node it keeps
      is the first matching node of `ns`. */
  lemma {:induction false} FilterSpec(ns: seq<Node>, sel: Selector)
    ensures forall x :: x in Filter(ns, sel) <==> x in ns && Matches(x, sel)
    ensures Filter(ns, sel) != [] ==> exists i :: FirstMatchAt(ns, sel, i) && ns[i] == Filter(ns, sel)[0]
  {
    if ns != [] {
      FilterSpec(ns[1..], sel);
      assert forall x :: x in ns <==> x == ns[0] || x in ns[1..];
      if Matches(ns[0], sel) {
        assert FirstMatchAt(ns, sel, 0);
      } else if Filter(ns, sel) != [] {
        var i :| FirstMatchAt(ns[1..], sel, i) && ns[1..][i] == Filter(ns[1..], sel)[0];
        assert forall j :: 1 <= j < i + 1 ==> ns[j] == ns[1..][j - 1];
        assert FirstMatchAt(ns, sel, i + 1);
      }
    }
  }

  /** `Filter` works piecewise: filtering a concatenation filters each part
      and keeps the parts in order. With `FilterSpec` this pins `Filter` down
      completely: every match is kept, once per occurrence, in the order of
      `ns`. */
  lemma {:induction false} FilterAppend(xs: seq<Node>, ys: seq<Node>, sel: Selector)
    ensures Filter(xs + ys, sel) == Filter(xs, sel) + Filter(ys, sel)
  {
    if xs == [] {
      assert xs + ys == ys;
    } else {
      assert (xs + ys)[1..] == xs[1..] + ys;
      FilterAppend(xs[1..], ys, sel);
    }
  }

  /** Nothing matches, nothing is kept. */
  lemma {:induction false} FilterNone(ns: seq<Node>, sel: Selector)
    requires forall i :: 0 <= i < |ns| ==> !Matches(ns[i], sel)
    ensures Filter(ns, sel) == []
  {
    if ns != [] {
      assert forall i :: 0 <= i < |ns| - 1 ==> ns[1..][i] == ns[i + 1];
      FilterNone(ns[1..], sel);
    }
  }

  /** A node that is the only match is all that is kept. */
  lemma {:induction false} FilterUnique(ns: seq<Node>, sel: Selector, i: nat)
    requires i < |ns| && Matches(ns[i], sel)
    requires forall j :: 0 <= j < |ns| && j != i ==> !Matches(ns[j], sel)
    ensures Filter(ns, sel) == [ns[i]]
  {
    assert forall j :: 0 <= j < |ns| - 1 ==> ns[1..][j] == ns[j + 1];
    if i == 0 {
      FilterNone(ns[1..], sel);
    } else {
      FilterUnique(ns[1..], sel, i - 1);
    }
  }

  /** BeautifulSoup's `n.find_all(sel)`. */
  function FindAll(n: Node, sel: Selector): (r: seq<Node>)
    ensures |r| <= |Descendants(n)|
  {
    Filter(Descendants(n), sel)
  }

  /** `find_all` returns exactly the matching descendants. */
  lemma FindAllSpec(n: Node, sel: Selector)
    ensures forall x :: x in FindAll(n, sel) <==> x in Descendants(n) && Matches(x, sel)
  {
    FilterSpec(Descendants(n), sel);
  }

  /** Document order of `find_all`: the matches through child `i` come before
      those through later children, and a child comes before its own
      matching descendants. */
  lemma FindAllThroughChild(n: Node, sel: Selector, i: nat)
    requires n.Element? && i < |n.children|
    ensures Filter(DescendantsFrom(n, i), sel) ==
      Filter([n.children[i]], sel) + FindAll(n.children[i], sel) + Filter(DescendantsFrom(n, i + 1), sel)
  {
    var c := n.children[i];
    FilterAppend([c] + Descendants(c), DescendantsFrom(n, i + 1), sel);
    FilterAppend([c], Descendants(c), sel);
  }

  /** BeautifulSoup's `n.find(sel)`: the first matching descendant in document
      order, or nothing when no descendant matches. */
  function Find(n: Node, sel: Selector): (r: Option<Node>)
    ensures r.Some? ==> Matches(r.value, sel)
  {
    var all := FindAll(n, sel);
    FilterSpec(Descendants(n), sel);
    if all == [] then None else Some(all[0])
  }

  /** `find` gives nothing exactly when no descendant matches, and otherwise
      the first matching descendant in document order. */
  lemma FindSpec(n: Node, sel: Selector)
    ensures Find(n, sel).None? <==> forall x :: x in Descendants(n) ==> !Matches(x, sel)
    ensures Find(n, sel).Some? ==> Find(n, sel).value in Descendants(n)
    ensures Find(n, sel).Some? ==>
      var d := Descendants(n);
      exists i :: 0 <= i < |d| && d[i] == Find(n, sel).value &&
        forall j :: 0 <= j < i ==> !Matches(d[j], sel)
  {
    FilterSpec(Descendants(n), sel);
  }

  /** The first matching descendant is what `find` returns. */
  lemma FindFirstMatch(n: Node, sel: Selector, i: int)
    requires FirstMatchAt(Descendants(n), sel, i)
    ensures Find(n, sel) == Some(Descendants(n)[i])
  {
    var d := Descendants(n);
    FindSpec(n, sel);
    assert d[i] in d;
    var i' :| 0 <= i' < |d| && d[i'] == Find(n, sel).value && forall j :: 0 <= j < i' ==> !Matches(d[j], sel);
  }

  /** What `find` returns sits at the first matching position. */
  lemma FindPosition(n: Node, sel: Selector) returns (i: int)
    requires Find(n, sel).Some?
    ensures FirstMatchAt(Descendants(n), sel, i) && Descendants(n)[i] == Find(n, sel).value
  {
    FindSpec(n, sel);
    var d := Descendants(n);
    i :| 0 <= i < |d| && d[i] == Find(n, sel).value && forall j :: 0 <= j < i ==> !Matches(d[j], sel);
  }

  /** The concatenated content of the text nodes of `ns`, in order. */
  function Texts(ns: seq<Node>): string
  {
    if ns == [] then ""
    else (if ns[0].Text? then ns[0].content else "") + Texts(ns[1..])
  }

  /** BeautifulSoup's `get_text()`: every text string below `n`, in document
      order, concatenated; a text node is its own text. */
  function GetText(n: Node): string
  {
    if n.Text? then n.content else Texts(Descendants(n))
  }

  /** The texts of a sequence of sibling nodes, concatenated. */
  function ChildrenText(cs: seq<Node>): string
  {
    if cs == [] then "" else GetText(cs[0]) + ChildrenText(cs[1..])
  }

  lemma {:induction false} TextsAppend(a: seq<Node>, b: seq<Node>)
    ensures Texts(a + b) == Texts(a) + Texts(b)
  {
    if a == [] {
      assert a + b == b;
    } else {
      assert (a + b)[1..] == a[1..] + b;
      TextsAppend(a[1..], b);
    }
  }

  lemma {:induction false} TextsOfDescendantsFrom(n: Node, i: nat)
    requires n.Element? && i <= |n.children|
    ensures Texts(DescendantsFrom(n, i)) == ChildrenText(n.children[i..])
    decreases |n.children| - i
  {
    if i < |n.children| {
      var c := n.children[i];
      TextsAppend([c] + Descendants(c), DescendantsFrom(n, i + 1));
      TextsAppend([c], Descendants(c));
      TextsOfDescendantsFrom(n, i + 1);
      assert n.children[i..][1..] == n.children[i + 1..];
    }
  }

  /** `get_text()` of an element is the `get_text()` of its children, joined:
      the text below nested elements is part of it. */
  lemma GetTextOfElement(n: Node)
    requires n.Element?
    ensures GetText(n) == ChildrenText(n.children)
  {
    TextsOfDescendantsFrom(n, 0);
    assert n.children[0..] == n.children;
  }
}

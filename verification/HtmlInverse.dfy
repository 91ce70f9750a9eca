/** Parsing undoes printing: the tree of a document is that of its text. */
module HtmlInverse {
  import opened Html

  /** An element by its tag; the body of a document has no tag of its own. */
  datatype Tree = Tree(tag: string, text: string, children: seq<Tree>)

  /** An element as text: its text before its children, and no closing tag for a void one. */
  function Print(t: Tree): string
    decreases t, 0
  {
    "<" + t.tag + ">" + t.text + PrintAll(t.children) + if Void(KindOf(t.tag)) then "" else "</" + t.tag + ">"
  }

  function PrintAll(ts: seq<Tree>): string
    decreases ts, 1
  {
    if ts == [] then "" else Print(ts[0]) + PrintAll(ts[1..])
  }

  /** Elements with tags that the parser knows, and texts that have no tag in them. */
  predicate Plain(t: Tree)
    decreases t, 0
  {
    KindOf(t.tag) != Unknown && '<' !in t.text && AllPlain(t.children)
  }

  predicate AllPlain(ts: seq<Tree>) {
    forall j :: 0 <= j < |ts| ==> Plain(ts[j])
  }

  /** What a document has room for. */
  predicate Holdable(t: Tree) {
    && |t.children| <= MAX_CHILDREN
    && |t.text| <= MAX_TEXT && (t.text == "" || !Blank(t.text[0]))
    && (Void(KindOf(t.tag)) ==> t.children == [] && t.text == "")
    && AllHoldable(t.children)
  }

  predicate AllHoldable(ts: seq<Tree>) {
    forall j :: 0 <= j < |ts| ==> Holdable(ts[j])
  }

  ghost predicate Ordered(nodes: seq<Node>) {
    forall i, k :: 0 <= i < |nodes| && 0 <= k < |nodes[i].children| ==> i < nodes[i].children[k] < |nodes|
  }

  /** The tree below a node. */
  ghost function TreeOf(nodes: seq<Node>, i: nat): Tree
    requires Ordered(nodes) && i < |nodes|
    decreases |nodes| - i
  {
    Tree(nodes[i].tag, nodes[i].text,
      seq(|nodes[i].children|, k requires 0 <= k < |nodes[i].children| => TreeOf(nodes, nodes[i].children[k])))
  }

  predicate SameNode(m: Node, n: Node) {
    m.kind == n.kind && m.tag == n.tag && m.text == n.text && m.children == n.children && m.parent == n.parent
  }

  lemma GoodIsOrdered(dom: Dom)
    requires Good(dom)
    ensures Ordered(dom.nodes)
  {
    forall i, k | 0 <= i < |dom.nodes| && 0 <= k < |dom.nodes[i].children|
      ensures i < dom.nodes[i].children[k] < |dom.nodes|
    {
      ChildrenInside(dom.nodes, i);
    }
  }

  /** A tree depends on the nodes from its own on. */
  lemma {:induction false} SameTree(nodes: seq<Node>, after: seq<Node>, i: nat)
    requires Ordered(nodes) && Ordered(after) && i < |nodes| <= |after|
    requires forall j :: i <= j < |nodes| ==> SameNode(nodes[j], after[j])
    ensures TreeOf(nodes, i) == TreeOf(after, i)
    decreases |nodes| - i
  {
    assert SameNode(nodes[i], after[i]);
    forall k | 0 <= k < |nodes[i].children|
      ensures TreeOf(nodes, nodes[i].children[k]) == TreeOf(after, nodes[i].children[k])
    {
      SameTree(nodes, after, nodes[i].children[k]);
    }
  }

  /** Every document is one that a document has room for. */
  lemma {:induction false} GoodIsHoldable(dom: Dom, i: nat)
    requires Good(dom) && Ordered(dom.nodes) && i < |dom.nodes|
    ensures Holdable(TreeOf(dom.nodes, i))
    decreases |dom.nodes| - i
  {
    assert NodeGood(dom.nodes, i);
    assert KindOf("") == Unknown;
    forall k | 0 <= k < |dom.nodes[i].children|
      ensures Holdable(TreeOf(dom.nodes, dom.nodes[i].children[k]))
    {
      GoodIsHoldable(dom, dom.nodes[i].children[k]);
    }
  }

  predicate Name(tag: string) {
    1 <= |tag| <= MAX_TAG && tag[0] != '/' && '>' !in tag && ' ' !in tag
  }

  lemma TagShape(tag: string)
    requires KindOf(tag) != Unknown
    ensures Name(tag)
  {
    hide ControlKind;
    if ControlKind(tag) != Unknown {
      ControlShape(tag);
    }
  }

  lemma ControlShape(tag: string)
    requires ControlKind(tag) != Unknown
    ensures Name(tag)
  {
    hide TextKind;
    if TextKind(tag) != Unknown {
      TextShape(tag);
    }
  }

  lemma TextShape(tag: string)
    requires TextKind(tag) != Unknown
    ensures Name(tag)
  {
    hide MediaKind;
    if MediaKind(tag) != Unknown {
      MediaShape(tag);
    }
  }

  lemma MediaShape(tag: string)
    requires MediaKind(tag) != Unknown
    ensures Name(tag)
  {
  }

  lemma {:induction false} RunOver(word: string, rest: string, stops: string, max: nat)
    requires |word| <= max && forall k :: 0 <= k < |word| ==> word[k] !in stops
    requires rest == "" || rest[0] in stops || |word| == max
    ensures RunLength(word + rest, stops, max) == |word|
  {
    if word == "" {
      assert word + rest == rest;
    } else {
      assert (word + rest)[1..] == word[1..] + rest;
      RunOver(word[1..], rest, stops, max - 1);
    }
  }

  lemma TagRun(tag: string, rest: string)
    requires Name(tag)
    ensures TagName(tag + ">" + rest) == tag && AfterTag(tag + ">" + rest) == rest
  {
    var s := tag + (">" + rest);
    assert s == tag + ">" + rest;
    RunOver(tag, ">" + rest, "> ", MAX_TAG);
    assert s[|tag|..] == ">" + rest;
    RunOver("", ">" + rest, ">", |s|);
    assert "" + (">" + rest) == ">" + rest;
  }

  lemma OpeningTag(dom: Dom, tag: string, rest: string)
    requires Good(dom) && KindOf(tag) != Unknown
    ensures Good(Opened(dom, KindOf(tag), tag))
    ensures Parsed("<" + tag + ">" + rest, dom) == Parsed(rest, Opened(dom, KindOf(tag), tag))
  {
    hide KindOf, TagName, AfterTag, RunLength, Opened, Good;
    var s := "<" + tag + ">" + rest;
    TagShape(tag);
    TagRun(tag, rest);
    ParsedTag(s, 0, dom);
    assert s[0..] == s && s[1..] == tag + ">" + rest;
  }

  lemma ClosingTag(dom: Dom, tag: string, rest: string)
    requires Good(dom) && KindOf(tag) != Unknown
    ensures Good(Closed(dom))
    ensures Parsed("</" + tag + ">" + rest, dom) == Parsed(rest, Closed(dom))
  {
    hide KindOf, TagName, AfterTag, RunLength, Closed, Good;
    var s := "</" + tag + ">" + rest;
    TagShape(tag);
    TagRun(tag, rest);
    ParsedTag(s, 0, dom);
    assert s[0..] == s && s[2..] == tag + ">" + rest;
  }

  lemma TextRun(dom: Dom, text: string, rest: string)
    requires Good(dom) && '<' !in text && |text| <= MAX_TEXT && (text == "" || !Blank(text[0]))
    requires rest == "" || rest[0] == '<'
    ensures Good(Texted(dom, text))
    ensures Parsed(text + rest, dom) == Parsed(rest, Texted(dom, text))
  {
    hide Good, RunLength;
    GoodTexted(dom, text);
    if text == "" {
      assert text + rest == rest;
    } else {
      RunOver(text, rest, "<", MAX_TEXT);
      assert (text + rest)[..|text|] == text && (text + rest)[|text|..] == rest;
    }
  }

  /** The current node has these trees as further children, and nothing else is different. */
  ghost predicate Grown(dom: Dom, after: Dom, ts: seq<Tree>)
    requires Good(dom) && Good(after)
  {
    var cur := dom.current;
    && after.current == cur && |dom.nodes| <= |after.nodes|
    && (forall i :: 0 <= i < |dom.nodes| && i != cur ==> SameNode(dom.nodes[i], after.nodes[i]))
    && GrownNode(dom.nodes[cur], after.nodes[cur], |ts|)
    && forall j :: 0 <= j < |ts| ==>
      HasTree(after, after.nodes[cur].children[|dom.nodes[cur].children| + j], |dom.nodes|, ts[j])
  }

  predicate GrownNode(before: Node, after: Node, n: nat) {
    && |after.children| == |before.children| + n
    && SameNode(before, after.(children := after.children[..|before.children|]))
  }

  ghost predicate HasTree(dom: Dom, i: nat, least: nat, t: Tree)
    requires Good(dom)
  {
    GoodIsOrdered(dom);
    least <= i < |dom.nodes| && TreeOf(dom.nodes, i) == t
  }

  lemma GrownNone(dom: Dom)
    requires Good(dom)
    ensures Grown(dom, dom, [])
  {
    var n := dom.nodes[dom.current];
    assert n.children[..|n.children|] == n.children;
  }

  lemma GrownMore(dom: Dom, mid: Dom, after: Dom, ts: seq<Tree>, us: seq<Tree>)
    requires Good(dom) && Good(mid) && Good(after) && Grown(dom, mid, ts) && Grown(mid, after, us)
    ensures Grown(dom, after, ts + us)
  {
    hide Good;
    GoodCurrent(dom);
    GoodCurrent(mid);
    GoodCurrent(after);
    var cur := dom.current;
    var c, m, a := dom.nodes[cur].children, mid.nodes[cur].children, after.nodes[cur].children;
    assert a[..|m|] == m && m[..|c|] == c && a[..|c|] == c;
    forall j | 0 <= j < |ts + us|
      ensures HasTree(after, a[|c| + j], |dom.nodes|, (ts + us)[j])
    {
      if j < |ts| {
        assert HasTree(mid, m[|c| + j], |dom.nodes|, ts[j]);
        GoodIsOrdered(mid);
        GoodIsOrdered(after);
        SameTree(mid.nodes, after.nodes, m[|c| + j]);
      } else {
        assert HasTree(after, a[|m| + (j - |ts|)], |mid.nodes|, us[j - |ts|]);
      }
    }
  }

  /** The document with another current node. */
  function At(dom: Dom, i: nat): Dom
    requires Good(dom) && i < |dom.nodes| && !Void(dom.nodes[i].kind)
    ensures Good(At(dom, i))
  {
    dom.(current := i)
  }

  /** The new node is the last child of the one it was opened from, and current unless nothing can be in it. */
  predicate IsOpened(dom: Dom, tag: string, after: Dom) {
    var id := |dom.nodes|;
    && |after.nodes| == id + 1 && dom.current < id
    && after.current == (if Void(KindOf(tag)) then dom.current else id)
    && after.nodes[id].(prev := NONE) == Node(KindOf(tag), tag, "", dom.current, [], NONE, NONE)
    && after.nodes[dom.current] == dom.nodes[dom.current].(children := dom.nodes[dom.current].children + [id])
  }

  lemma OpenedNode(dom: Dom, tag: string)
    requires Good(dom) && KindOf(tag) != Unknown && |dom.nodes[dom.current].children| < MAX_CHILDREN
    ensures Good(Opened(dom, KindOf(tag), tag)) && IsOpened(dom, tag, Opened(dom, KindOf(tag), tag))
  {
    GoodOpened(dom, KindOf(tag), tag);
    OpenedNodes(dom, KindOf(tag), tag, |dom.nodes|);
    OpenedNodes(dom, KindOf(tag), tag, dom.current);
  }

  /** What an opening tag appends to the document. */
  lemma OpenedIsLeaf(dom: Dom, tag: string)
    requires Good(dom) && KindOf(tag) != Unknown && |dom.nodes[dom.current].children| < MAX_CHILDREN
    ensures Good(Opened(dom, KindOf(tag), tag))
    ensures |Opened(dom, KindOf(tag), tag).nodes| > dom.current
    ensures !Void(Opened(dom, KindOf(tag), tag).nodes[dom.current].kind)
    ensures Grown(dom, At(Opened(dom, KindOf(tag), tag), dom.current), [Tree(tag, "", [])])
  {
    hide Opened, KindOf, Good, Grown, Void, TreeOf, HasTree;
    GoodCurrent(dom);
    OpenedNode(dom, tag);
    var cur, id, after := dom.current, |dom.nodes|, Opened(dom, KindOf(tag), tag);
    forall i | 0 <= i < id && i != cur
      ensures SameNode(dom.nodes[i], after.nodes[i])
    {
      OpenedRest(dom, tag, i);
    }
    LeafTree(At(after, cur), id);
    LeafGrown(dom, At(after, cur), tag);
  }

  lemma LeafTree(dom: Dom, i: nat)
    requires Good(dom) && i < |dom.nodes| && dom.nodes[i].children == [] && dom.nodes[i].text == ""
    ensures HasTree(dom, i, i, Tree(dom.nodes[i].tag, "", []))
  {
    hide Good;
    GoodIsOrdered(dom);
  }

  lemma LeafGrown(dom: Dom, after: Dom, tag: string)
    requires Good(dom) && Good(after) && after.current == dom.current < |dom.nodes| && |after.nodes| == |dom.nodes| + 1
    requires forall i :: 0 <= i < |dom.nodes| && i != dom.current ==> SameNode(dom.nodes[i], after.nodes[i])
    requires after.nodes[dom.current] ==
      dom.nodes[dom.current].(children := dom.nodes[dom.current].children + [|dom.nodes|])
    requires HasTree(after, |dom.nodes|, |dom.nodes|, Tree(tag, "", []))
    ensures Grown(dom, after, [Tree(tag, "", [])])
  {
    hide Good, HasTree;
    var children := dom.nodes[dom.current].children;
    assert (children + [|dom.nodes|])[..|children|] == children;
  }

  /** A node that has grown its children below itself is the tree with those children. */
  lemma GrownTree(dom: Dom, after: Dom, ts: seq<Tree>)
    requires Good(dom) && Good(after) && Grown(dom, after, ts) && dom.nodes[dom.current].children == []
    ensures Ordered(after.nodes)
    ensures TreeOf(after.nodes, dom.current) == Tree(dom.nodes[dom.current].tag, dom.nodes[dom.current].text, ts)
  {
    hide Good, HasTree, Ordered;
    GoodIsOrdered(after);
    GoodCurrent(dom);
    GoodCurrent(after);
    var children := after.nodes[dom.current].children;
    forall j | 0 <= j < |ts|
      ensures children[j] < |after.nodes| && TreeOf(after.nodes, children[j]) == ts[j]
    {
      assert HasTree(after, children[0 + j], |dom.nodes|, ts[j]);
      TreeIs(after, children[j], |dom.nodes|, ts[j]);
    }
  }

  lemma TreeIs(dom: Dom, i: nat, least: nat, t: Tree)
    requires Good(dom) && HasTree(dom, i, least, t)
    ensures Ordered(dom.nodes) && least <= i < |dom.nodes| && TreeOf(dom.nodes, i) == t
  {
    hide Good;
    GoodIsOrdered(dom);
  }

  lemma OpenedRest(dom: Dom, tag: string, i: nat)
    requires Good(dom) && KindOf(tag) != Unknown && |dom.nodes[dom.current].children| < MAX_CHILDREN
    requires i < |dom.nodes| && i != dom.current
    ensures |Opened(dom, KindOf(tag), tag).nodes| > i && SameNode(dom.nodes[i], Opened(dom, KindOf(tag), tag).nodes[i])
  {
    OpenedNodes(dom, KindOf(tag), tag, i);
  }

  /** The document after the opening tag and the text of an element. */
  function Entered(dom: Dom, tag: string, text: string): Dom
    requires Good(dom) && Good(Opened(dom, KindOf(tag), tag))
  {
    Texted(Opened(dom, KindOf(tag), tag), text)
  }

  lemma EnteredNodes(dom: Dom, tag: string, text: string)
    requires Good(dom) && KindOf(tag) != Unknown && !Void(KindOf(tag))
    requires |dom.nodes[dom.current].children| < MAX_CHILDREN
    requires Good(Opened(dom, KindOf(tag), tag))
    ensures IsEntered(dom, tag, text, Entered(dom, tag, text))
  {
    hide KindOf, Opened, Void, Good, SameNode;
    GoodCurrent(dom);
    OpenedNode(dom, tag);
    forall i | 0 <= i < |dom.nodes| && i != dom.current
      ensures SameNode(dom.nodes[i], Opened(dom, KindOf(tag), tag).nodes[i])
    {
      OpenedRest(dom, tag, i);
    }
  }

  /** The new node, now current, and the node it was opened from. */
  predicate IsEntered(dom: Dom, tag: string, text: string, after: Dom) {
    var id := |dom.nodes|;
    && |after.nodes| == id + 1 && after.current == id && dom.current < id
    && after.nodes[id].(prev := NONE) == Node(KindOf(tag), tag, text, dom.current, [], NONE, NONE)
    && after.nodes[dom.current] == dom.nodes[dom.current].(children := dom.nodes[dom.current].children + [id])
    && forall i :: 0 <= i < id && i != dom.current ==> SameNode(dom.nodes[i], after.nodes[i])
  }

  /** An element opened, given its text, grown by its children and closed again. */
  lemma ElementGrown(dom: Dom, tag: string, text: string, filled: Dom, ts: seq<Tree>)
    requires Good(dom) && KindOf(tag) != Unknown && !Void(KindOf(tag))
    requires |dom.nodes[dom.current].children| < MAX_CHILDREN
    requires Good(Opened(dom, KindOf(tag), tag)) && Good(Entered(dom, tag, text)) && Good(filled)
    requires Grown(Entered(dom, tag, text), filled, ts)
    ensures Good(Closed(filled)) && Grown(dom, Closed(filled), [Tree(tag, text, ts)])
  {
    hide KindOf, Opened, Entered, Good, Void, HasTree, TreeOf;
    var cur, id, entered := dom.current, |dom.nodes|, Entered(dom, tag, text);
    GoodCurrent(dom);
    GoodCurrent(filled);
    EnteredNodes(dom, tag, text);
    GoodClosed(filled);
    GrownTree(entered, filled, ts);
    IsTree(Closed(filled), id, Tree(tag, text, ts));
    GrownBelow(dom, entered, filled, Tree(tag, text, ts), ts);
  }

  /** What was done below the new node `id` is one tree more for the node it was done from. */
  lemma GrownBelow(dom: Dom, entered: Dom, filled: Dom, t: Tree, ts: seq<Tree>)
    requires Good(dom) && Good(entered) && Good(filled) && Grown(entered, filled, ts) && Good(Closed(filled))
    requires IsEntered(dom, t.tag, t.text, entered)
    requires HasTree(Closed(filled), |dom.nodes|, |dom.nodes|, t)
    ensures Grown(dom, Closed(filled), [t])
  {
    hide Good, HasTree;
    var cur, id := dom.current, |dom.nodes|;
    assert SameNode(entered.nodes[cur], filled.nodes[cur]);
    assert filled.nodes[cur].children[..|dom.nodes[cur].children|] == dom.nodes[cur].children;
    forall i | 0 <= i < id && i != cur
      ensures SameNode(dom.nodes[i], filled.nodes[i])
    {
      assert SameNode(entered.nodes[i], filled.nodes[i]);
    }
  }

  lemma IsTree(dom: Dom, i: nat, t: Tree)
    requires Good(dom) && i < |dom.nodes| && Ordered(dom.nodes) && TreeOf(dom.nodes, i) == t
    ensures HasTree(dom, i, i, t)
  {
  }

  lemma TagNext(ts: seq<Tree>, end: string)
    requires end == "" || end[0] == '<'
    ensures var s := PrintAll(ts) + end; s == "" || s[0] == '<'
  {
    if ts != [] {
      assert PrintAll(ts)[0] == Print(ts[0])[0];
    }
  }

  lemma PrintedFront(t: Tree, rest: string)
    requires Holdable(t)
    ensures Print(t) + rest == "<" + t.tag + ">" +
      if Void(KindOf(t.tag)) then rest else t.text + (PrintAll(t.children) + ("</" + t.tag + ">" + rest))
  {
    hide KindOf, Void;
    if !Void(KindOf(t.tag)) {
      var front, body, end := "<" + t.tag + ">", PrintAll(t.children), "</" + t.tag + ">";
      assert Print(t) == front + t.text + body + end;
      assert front + t.text + body + end + rest == front + (t.text + (body + (end + rest)));
    }
  }

  /** Reading a printed tree grows the current node by that tree. */
  lemma {:induction false} ReadTree(dom: Dom, t: Tree, rest: string) returns (after: Dom)
    requires Good(dom) && Plain(t) && Holdable(t) && |dom.nodes[dom.current].children| < MAX_CHILDREN
    ensures Good(after) && Grown(dom, after, [t])
    ensures Parsed(Print(t) + rest, dom) == Parsed(rest, after)
    decreases t, 0
  {
    hide Good, Grown, Opened, Print, PrintAll;
    var elem := Opened(dom, KindOf(t.tag), t.tag);
    OpenedNode(dom, t.tag);
    PrintedFront(t, rest);
    if Void(KindOf(t.tag)) {
      OpenedIsLeaf(dom, t.tag);
      OpeningTag(dom, t.tag, rest);
      after := elem;
    } else {
      var end := "</" + t.tag + ">" + rest;
      var body := PrintAll(t.children) + end;
      OpeningTag(dom, t.tag, t.text + body);
      TagNext(t.children, end);
      TextRun(elem, t.text, body);
      EnteredNodes(dom, t.tag, t.text);
      var filled := ReadTrees(Entered(dom, t.tag, t.text), t.children, end);
      ClosingTag(filled, t.tag, rest);
      ElementGrown(dom, t.tag, t.text, filled, t.children);
      after := Closed(filled);
    }
  }

  lemma {:induction false} ReadTrees(dom: Dom, ts: seq<Tree>, rest: string) returns (after: Dom)
    requires Good(dom) && AllPlain(ts) && AllHoldable(ts) && |dom.nodes[dom.current].children| + |ts| <= MAX_CHILDREN
    ensures Good(after) && Grown(dom, after, ts)
    ensures Parsed(PrintAll(ts) + rest, dom) == Parsed(rest, after)
    decreases ts, 1
  {
    hide Good, Plain, Holdable, Print, SameNode;
    if ts == [] {
      GrownNone(dom);
      assert PrintAll(ts) + rest == rest;
      after := dom;
    } else {
      assert PrintAll(ts) + rest == Print(ts[0]) + (PrintAll(ts[1..]) + rest);
      var mid := ReadTree(dom, ts[0], PrintAll(ts[1..]) + rest);
      after := ReadTrees(mid, ts[1..], rest);
      GrownMore(dom, mid, after, [ts[0]], ts[1..]);
      assert [ts[0]] + ts[1..] == ts;
    }
  }

  /** The body of the document is the tree whose text was read, exactly for the trees that a document has room for. */
  lemma ParseInvertsPrint(text: string, children: seq<Tree>)
    requires '<' !in text && AllPlain(children)
    ensures Good(Start())
    ensures var dom := Parsed(text + PrintAll(children), Start());
      && Ordered(dom.nodes)
      && (TreeOf(dom.nodes, 2) == Tree("", text, children) <==> Holdable(Tree("", text, children)))
      && (Holdable(Tree("", text, children)) ==> dom.current == 2)
  {
    hide Good;
    GoodStart();
    var dom := Parsed(text + PrintAll(children), Start());
    GoodAtEnds(dom);
    if Holdable(Tree("", text, children)) {
      ReadBody(text, children);
    }
  }

  lemma GoodAtEnds(dom: Dom)
    requires Good(dom)
    ensures |dom.nodes| > 2 && Ordered(dom.nodes) && Holdable(TreeOf(dom.nodes, 2))
  {
    GoodIsOrdered(dom);
    GoodIsHoldable(dom, 2);
  }

  lemma ReadBody(text: string, children: seq<Tree>)
    requires '<' !in text && AllPlain(children) && Holdable(Tree("", text, children))
    ensures Good(Start())
    ensures var dom := Parsed(text + PrintAll(children), Start());
      dom.current == 2 && |dom.nodes| > 2 && Ordered(dom.nodes) && TreeOf(dom.nodes, 2) == Tree("", text, children)
  {
    GoodStart();
    hide Good, PrintAll;
    TagNext(children, "");
    assert PrintAll(children) + "" == PrintAll(children);
    TextRun(Start(), text, PrintAll(children));
    var started := Texted(Start(), text);
    var after := ReadTrees(started, children, "");
    ParsedEnd(after);
    GrownTree(started, after, children);
  }
}

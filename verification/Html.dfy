/** The HTML parser: tags and texts to a linked tree of nodes, with the parent links as its stack. */
module Html {
  const MAX_CHILDREN: nat := 256
  const MAX_TAG: nat := 31
  const MAX_TEXT: nat := 4095
  /** No node. */
  const NONE: int := -1

  datatype Kind =
    | Unknown | Html | Head | Body | Div | Span | P | A | Img | H1 | H2 | H3
    | H4 | H5 | H6 | Ul | Ol | Li | Table | Tr | Td | Th | Thead | Tbody
    | Form | Input | Button | Textarea | Select | Option | Script | Style | Link | Meta | Title | Br
    | Hr | Iframe | Canvas | Video | Audio | Nav | Header | Footer | Section | Article | Aside | Blockquote
    | Pre | Code | Strong | Em | Label | Fieldset | Legend

  /** A node; its links are the numbers of other nodes in the order of their creation. */
  datatype Node = Node(kind: Kind, tag: string, text: string, parent: int, children: seq<nat>, prev: int, next: int)

  /** Root, head and body are nodes 0, 1 and 2. */
  datatype Dom = Dom(nodes: seq<Node>, current: nat)

  function KindOf(tag: string): Kind {
    if tag == "div" then Div
    else if tag == "p" then P
    else if tag == "span" then Span
    else if tag == "a" then A
    else if tag == "img" then Img
    else if tag == "h1" then H1
    else if tag == "h2" then H2
    else if tag == "h3" then H3
    else if tag == "br" then Br
    else if tag == "hr" then Hr
    else if tag == "table" then Table
    else if tag == "tr" then Tr
    else if tag == "td" then Td
    else ControlKind(tag)
  }

  /** The chain of comparisons goes on. */
  function ControlKind(tag: string): Kind {
    if tag == "form" then Form
    else if tag == "input" then Input
    else if tag == "button" then Button
    else if tag == "script" then Script
    else if tag == "style" then Style
    else if tag == "title" then Title
    else if tag == "nav" then Nav
    else if tag == "header" then Header
    else if tag == "footer" then Footer
    else if tag == "section" then Section
    else if tag == "article" then Article
    else TextKind(tag)
  }

  function TextKind(tag: string): Kind {
    if tag == "ul" then Ul
    else if tag == "ol" then Ol
    else if tag == "li" then Li
    else if tag == "strong" then Strong
    else if tag == "em" then Em
    else if tag == "code" then Code
    else if tag == "pre" then Pre
    else MediaKind(tag)
  }

  function MediaKind(tag: string): Kind {
    if tag == "blockquote" then Blockquote
    else if tag == "label" then Label
    else if tag == "canvas" then Canvas
    else if tag == "video" then Video
    else if tag == "audio" then Audio
    else Unknown
  }

  /** Elements without content. */
  predicate Void(kind: Kind) {
    kind.Br? || kind.Hr? || kind.Img? || kind.Input? || kind.Meta? || kind.Link?
  }

  /** How many characters come before one of the stops, up to max. */
  function RunLength(s: string, stops: string, max: nat): (n: nat)
    ensures n <= |s| && n <= max
    ensures forall k :: 0 <= k < n ==> s[k] !in stops
    ensures n < |s| && n < max ==> s[n] in stops
  {
    if s == "" || max == 0 || s[0] in stops then 0 else 1 + RunLength(s[1..], stops, max - 1)
  }

  predicate Blank(c: char) {
    c == ' ' || c == '\n' || c == '\t'
  }

  function Trim(s: string): (t: string)
    ensures t == "" || !Blank(t[0])
    ensures |t| <= |s|
  {
    if s != "" && Blank(s[0]) then Trim(s[1..]) else s
  }

  function Created(kind: Kind): Node {
    Node(kind, "", "", NONE, [], NONE, NONE)
  }

  /** child, if the parent has room for it, comes to be its last child. */
  function Appended(nodes: seq<Node>, parent: nat, child: nat): (after: seq<Node>)
    requires parent < |nodes| && child < |nodes|
    requires forall k :: 0 <= k < |nodes[parent].children| ==> nodes[parent].children[k] < |nodes|
    ensures |after| == |nodes|
  {
    var children := nodes[parent].children;
    if |children| >= MAX_CHILDREN then nodes
    else
      var last := if children == [] then NONE else children[|children| - 1];
      var linked := nodes[child := nodes[child].(parent := parent, prev := last, next := NONE)];
      var chained := if last == NONE then linked else linked[last := linked[last].(next := child)];
      chained[parent := chained[parent].(children := children + [child])]
  }

  lemma ChildrenInside(nodes: seq<Node>, i: nat)
    requires i < |nodes| && NodeGood(nodes, i)
    ensures forall k :: 0 <= k < |nodes[i].children| ==> i < nodes[i].children[k] < |nodes|
  {
    forall k | 0 <= k < |nodes[i].children|
      ensures i < nodes[i].children[k] < |nodes|
    {
      assert ChildAt(nodes, i, k);
    }
  }

  /** What an opening tag of a known kind does. */
  function Opened(dom: Dom, kind: Kind, tag: string): Dom
    requires Good(dom)
  {
    var id := |dom.nodes|;
    ChildrenInside(dom.nodes, dom.current);
    Dom(Appended(dom.nodes + [Created(kind).(tag := tag)], dom.current, id), if Void(kind) then dom.current else id)
  }

  /** What a closing tag does, whatever its name. */
  function Closed(dom: Dom): Dom
    requires Good(dom)
  {
    assert NodeGood(dom.nodes, dom.current);
    if dom.nodes[dom.current].parent == NONE then dom else dom.(current := dom.nodes[dom.current].parent)
  }

  /** What a run of text does. */
  function Texted(dom: Dom, text: string): Dom
    requires Good(dom)
  {
    if text == "" then dom else dom.(nodes := dom.nodes[dom.current := dom.nodes[dom.current].(text := text)])
  }

  predicate ChildAt(nodes: seq<Node>, i: nat, k: nat)
    requires i < |nodes| && k < |nodes[i].children|
  {
    var children := nodes[i].children;
    && i < children[k] < |nodes|
    && (k > 0 ==> children[k - 1] < children[k])
    && nodes[children[k]].parent == i
    && nodes[children[k]].prev == (if k == 0 then NONE else children[k - 1])
    && nodes[children[k]].next == (if k + 1 == |children| then NONE else children[k + 1])
  }

  /** A node agrees with its children, its siblings and its parent about their links. */
  predicate Linked(nodes: seq<Node>, i: nat)
    requires i < |nodes|
  {
    var n := nodes[i];
    && (forall k :: 0 <= k < |n.children| ==> ChildAt(nodes, i, k))
    && (if n.parent == NONE then n.prev == NONE && n.next == NONE
        else 0 <= n.parent < i && i in nodes[n.parent].children)
  }

  /** A node keeps to the limits. */
  predicate Within(i: nat, n: Node) {
    && |n.children| <= MAX_CHILDREN
    && |n.text| <= MAX_TEXT && (n.text == "" || !Blank(n.text[0]))
    && (Void(n.kind) ==> n.children == [] && n.text == "")
    && (if i < 3 then n.tag == "" else n.kind == KindOf(n.tag) != Unknown)
  }

  predicate NodeGood(nodes: seq<Node>, i: nat)
    requires i < |nodes|
  {
    Linked(nodes, i) && Within(i, nodes[i])
  }

  predicate Good(dom: Dom) {
    && 3 <= |dom.nodes|
    && dom.current < |dom.nodes| && !Void(dom.nodes[dom.current].kind)
    && (forall i :: 0 <= i < |dom.nodes| ==> NodeGood(dom.nodes, i))
    && dom.nodes[0].kind == Html && dom.nodes[1].kind == Head && dom.nodes[2].kind == Body
  }

  /** The document before its first character. */
  function Start(): Dom {
    Dom([Created(Html).(children := [1, 2]), Created(Head).(parent := 0, next := 2),
      Created(Body).(parent := 0, prev := 1)], 2)
  }

  /** The name of the tag after '<' and, if it is closing, '/'. */
  function TagName(s: string): string {
    s[..RunLength(s, "> ", MAX_TAG)]
  }

  /** What comes after the tag, its attributes skipped. */
  function AfterTag(s: string): (rest: string)
    ensures |rest| <= |s|
  {
    var n := RunLength(s, "> ", MAX_TAG);
    var end := n + RunLength(s[n..], ">", |s|);
    if end < |s| then s[end + 1..] else ""
  }

  function Tagged(dom: Dom, tag: string): Dom
    requires Good(dom)
  {
    if KindOf(tag) == Unknown then dom else Opened(dom, KindOf(tag), tag)
  }

  /** The document after all of a text. */
  function Parsed(html: string, dom: Dom): (parsed: Dom)
    requires Good(dom)
    ensures Good(parsed)
    decreases |html|
  {
    hide Good;
    if html == "" || html == "<" then dom
    else if html[0] == '<' then
      if html[1] == '/' then GoodClosed(dom); Parsed(AfterTag(html[2..]), Closed(dom))
      else GoodTagged(dom, TagName(html[1..])); Parsed(AfterTag(html[1..]), Tagged(dom, TagName(html[1..])))
    else
      var n := RunLength(html, "<", MAX_TEXT);
      GoodTexted(dom, Trim(html[..n]));
      Parsed(html[n..], Texted(dom, Trim(html[..n])))
  }

  lemma GoodStart()
    ensures Good(Start())
  {
    var nodes := Start().nodes;
    assert ChildAt(nodes, 0, 0) && ChildAt(nodes, 0, 1);
    assert nodes[0].children[0] == 1 && nodes[0].children[1] == 2;
    assert NodeGood(nodes, 0) && NodeGood(nodes, 1) && NodeGood(nodes, 2);
  }

  lemma GoodClosed(dom: Dom)
    requires Good(dom)
    ensures Good(Closed(dom))
  {
    var n := dom.nodes[dom.current];
    assert NodeGood(dom.nodes, dom.current);
    if n.parent != NONE {
      assert NodeGood(dom.nodes, n.parent);
    }
  }

  lemma GoodTexted(dom: Dom, text: string)
    requires Good(dom) && |text| <= MAX_TEXT && (text == "" || !Blank(text[0]))
    ensures Good(Texted(dom, text))
  {
    var after := Texted(dom, text);
    forall i | 0 <= i < |after.nodes|
      ensures NodeGood(after.nodes, i)
    {
      assert NodeGood(dom.nodes, i);
      forall k | 0 <= k < |dom.nodes[i].children|
        ensures ChildAt(after.nodes, i, k)
      {
        assert ChildAt(dom.nodes, i, k);
      }
    }
  }

  lemma GoodTagged(dom: Dom, tag: string)
    requires Good(dom)
    ensures Good(Tagged(dom, tag))
  {
    if KindOf(tag) != Unknown {
      GoodOpened(dom, KindOf(tag), tag);
    }
  }

  lemma GoodOpened(dom: Dom, kind: Kind, tag: string)
    requires Good(dom) && kind == KindOf(tag) != Unknown
    ensures Good(Opened(dom, kind, tag))
  {
    hide KindOf;
    var after := Opened(dom, kind, tag);
    forall i | 0 <= i < |after.nodes|
      ensures NodeGood(after.nodes, i)
    {
      NodeGoodOpened(dom, kind, tag, i);
      OpenedNodes(dom, kind, tag, i);
    }
    OpenedNodes(dom, kind, tag, 0);
    OpenedNodes(dom, kind, tag, 1);
    OpenedNodes(dom, kind, tag, 2);
    OpenedNodes(dom, kind, tag, dom.current);
    OpenedNodes(dom, kind, tag, |dom.nodes|);
  }

  /** The new node is the last child of the current one, next to the one that was; or, without room, an orphan. */
  lemma OpenedNodes(dom: Dom, kind: Kind, tag: string, i: nat)
    requires Good(dom) && i <= |dom.nodes|
    ensures var nodes, after, cur, id := dom.nodes, Opened(dom, kind, tag).nodes, dom.current, |dom.nodes|;
      var children := nodes[cur].children;
      var last := if children == [] then NONE else children[|children| - 1];
      && |after| == id + 1 && cur < id && last < id && last != cur
      && (children != [] ==> nodes[last].parent == cur && nodes[last].next == NONE)
      && (|children| >= MAX_CHILDREN ==> after == nodes + [Created(kind).(tag := tag)])
      && (|children| < MAX_CHILDREN ==>
        if i == id then after[i] == Created(kind).(tag := tag, parent := cur, prev := last)
        else if i == cur then after[i] == nodes[i].(children := children + [id])
        else if i == last then after[i] == nodes[i].(next := id)
        else after[i] == nodes[i])
  {
    LastChild(dom);
    hide Good;
  }

  lemma LastChild(dom: Dom)
    requires Good(dom)
    ensures var nodes, cur := dom.nodes, dom.current;
      var children := nodes[cur].children;
      && (forall k :: 0 <= k < |children| ==> cur < children[k] < |nodes|)
      && (children != [] ==>
            var last := children[|children| - 1];
            nodes[last].parent == cur && nodes[last].next == NONE)
  {
    hide KindOf, Blank, Void;
    var children := dom.nodes[dom.current].children;
    ChildrenInside(dom.nodes, dom.current);
    if children != [] {
      assert ChildAt(dom.nodes, dom.current, |children| - 1);
    }
  }

  lemma GoodNode(dom: Dom, i: nat)
    requires Good(dom) && i < |dom.nodes|
    ensures NodeGood(dom.nodes, i)
  {
  }

  lemma ChildOf(nodes: seq<Node>, i: nat, k: nat)
    requires i < |nodes| && k < |nodes[i].children| && NodeGood(nodes, i)
    ensures ChildAt(nodes, i, k)
  {
  }

  lemma ChildAtOpened(dom: Dom, kind: Kind, tag: string, i: nat, k: nat)
    requires Good(dom) && i < |dom.nodes| && k < |Opened(dom, kind, tag).nodes[i].children|
    ensures ChildAt(Opened(dom, kind, tag).nodes, i, k)
  {
    hide KindOf, Opened, Good, NodeGood, Linked, Within, ChildAt;
    OpenedNodes(dom, kind, tag, i);
    GoodCurrent(dom);
    if k < |dom.nodes[i].children| {
      ChildAtKept(dom, kind, tag, i, k);
    } else {
      ChildAtEnd(dom, kind, tag);
    }
  }

  lemma ChildAtEnd(dom: Dom, kind: Kind, tag: string)
    requires Good(dom) && |dom.nodes[dom.current].children| < MAX_CHILDREN
    ensures |Opened(dom, kind, tag).nodes| > dom.current
    ensures |Opened(dom, kind, tag).nodes[dom.current].children| > |dom.nodes[dom.current].children|
    ensures ChildAt(Opened(dom, kind, tag).nodes, dom.current, |dom.nodes[dom.current].children|)
  {
    hide KindOf, Opened, Good, NodeGood, Linked, Within;
    GoodCurrent(dom);
    OpenedNodes(dom, kind, tag, dom.current);
    OpenedNodes(dom, kind, tag, |dom.nodes|);
  }

  lemma ChildAtKept(dom: Dom, kind: Kind, tag: string, i: nat, k: nat)
    requires Good(dom) && i < |dom.nodes| && k < |dom.nodes[i].children|
    ensures |Opened(dom, kind, tag).nodes| > i && k < |Opened(dom, kind, tag).nodes[i].children|
    ensures ChildAt(Opened(dom, kind, tag).nodes, i, k)
  {
    hide KindOf, Opened, Good, NodeGood, Linked, Within;
    GoodNode(dom, i);
    ChildOf(dom.nodes, i, k);
    OpenedNodes(dom, kind, tag, i);
    OpenedNodes(dom, kind, tag, dom.nodes[i].children[k]);
    if k + 1 < |dom.nodes[i].children| {
      ChildOf(dom.nodes, i, k + 1);
    }
  }

  lemma ParentOpened(dom: Dom, kind: Kind, tag: string, i: nat)
    requires Good(dom) && i < |dom.nodes| && dom.nodes[i].parent != NONE
    ensures var parent := dom.nodes[i].parent; 0 <= parent < i && i in Opened(dom, kind, tag).nodes[parent].children
  {
    hide Opened, ChildAt, KindOf, Good;
    GoodNode(dom, i);
    OpenedNodes(dom, kind, tag, dom.nodes[i].parent);
  }

  lemma NodeGoodOpened(dom: Dom, kind: Kind, tag: string, i: nat)
    requires Good(dom) && kind == KindOf(tag) != Unknown && i <= |dom.nodes|
    ensures NodeGood(Opened(dom, kind, tag).nodes, i)
  {
    hide KindOf, Opened, Linked, Good;
    LinkedOpened(dom, kind, tag, i);
    OpenedNodes(dom, kind, tag, i);
    GoodCurrent(dom);
    if i < |dom.nodes| {
      GoodNode(dom, i);
    }
  }

  lemma LinkedOpened(dom: Dom, kind: Kind, tag: string, i: nat)
    requires Good(dom) && i <= |dom.nodes|
    ensures Linked(Opened(dom, kind, tag).nodes, i)
  {
    hide Opened, ChildAt, Within, Good;
    var nodes, after := dom.nodes, Opened(dom, kind, tag).nodes;
    OpenedNodes(dom, kind, tag, i);
    OpenedNodes(dom, kind, tag, dom.current);
    if i < |nodes| {
      GoodNode(dom, i);
      forall k | 0 <= k < |after[i].children|
        ensures ChildAt(after, i, k)
      {
        ChildAtOpened(dom, kind, tag, i, k);
      }
      if nodes[i].parent != NONE {
        ParentOpened(dom, kind, tag, i);
      }
    }
  }

  /** The position of the first stop at or after p, but at most max on. */
  method Skip(html: string, p: nat, stops: string, max: nat) returns (q: nat)
    requires p <= |html|
    ensures q == p + RunLength(html[p..], stops, max)
  {
    q := p;
    while q < |html| && q - p < max && html[q] !in stops
      invariant p <= q <= |html| && q - p <= max
      invariant q + RunLength(html[q..], stops, max - (q - p)) == p + RunLength(html[p..], stops, max)
    {
      assert html[q..][1..] == html[q + 1..];
      q := q + 1;
    }
  }

  method TrimStart(text: string) returns (start: string)
    ensures start == Trim(text)
  {
    var i := 0;
    while i < |text| && Blank(text[i])
      invariant i <= |text| && Trim(text[i..]) == Trim(text)
    {
      i := i + 1;
    }
    start := text[i..];
  }

  lemma TagRead(s: string, n: nat, m: nat, room: nat)
    requires n == RunLength(s, "> ", MAX_TAG) && m == RunLength(s[n..], ">", room) && |s| <= room
    ensures TagName(s) == s[..n] && AfterTag(s) == if n + m < |s| then s[n + m + 1..] else ""
  {
    hide RunLength;
    RoomToSpare(s[n..], ">", |s|, room);
  }

  lemma ParsedText(s: string, dom: Dom)
    requires Good(dom) && s != "" && s[0] != '<'
    ensures var n := RunLength(s, "<", MAX_TEXT);
      1 <= n <= |s| && Good(Texted(dom, Trim(s[..n]))) && Parsed(s, dom) == Parsed(s[n..], Texted(dom, Trim(s[..n])))
  {
    hide Good;
    GoodTexted(dom, Trim(s[..RunLength(s, "<", MAX_TEXT)]));
  }

  lemma ParsedEnd(dom: Dom)
    requires Good(dom)
    ensures Parsed("", dom) == dom && Parsed("<", dom) == dom
  {
  }

  lemma GoodCurrent(dom: Dom)
    requires Good(dom)
    ensures 3 <= |dom.nodes| && dom.current < |dom.nodes| && NONE <= dom.nodes[dom.current].parent
    ensures !Void(dom.nodes[dom.current].kind)
  {
    assert NodeGood(dom.nodes, dom.current);
  }

  lemma ParsedTag(html: string, from: nat, dom: Dom)
    requires Good(dom) && from + 1 < |html| && html[from] == '<'
    ensures Good(Closed(dom)) && forall tag :: Good(Tagged(dom, tag))
    ensures Parsed(html[from..], dom) ==
      if html[from + 1] == '/' then Parsed(AfterTag(html[from + 2..]), Closed(dom))
      else Parsed(AfterTag(html[from + 1..]), Tagged(dom, TagName(html[from + 1..])))
  {
    hide Good, AfterTag, TagName, Tagged, Closed;
    var rest := html[from..];
    GoodClosed(dom);
    forall tag
      ensures Good(Tagged(dom, tag))
    {
      GoodTagged(dom, tag);
    }
    assert rest[1..] == html[from + 1..];
    assert rest[1] == '/' ==> rest[2..] == html[from + 2..];
  }

  /** More room than there are characters changes nothing. */
  lemma {:induction false} RoomToSpare(s: string, stops: string, max: nat, more: nat)
    requires |s| <= max <= more
    ensures RunLength(s, stops, max) == RunLength(s, stops, more)
  {
    if s != "" && s[0] !in stops {
      RoomToSpare(s[1..], stops, max - 1, more - 1);
    }
  }

  lemma StartLinks()
    ensures var one := Appended([Created(Html), Created(Head), Created(Body)], 0, 1);
      one == [Created(Html).(children := [1]), Created(Head).(parent := 0), Created(Body)] &&
        Appended(one, 0, 2) == Start().nodes
  {
    assert [] + [1] == [1] && [1] + [2] == [1, 2];
  }

  /** The name of a tag, and where its '>' is passed. */
  method ScanTag(html: string, start: nat) returns (tag: string, p: nat)
    requires start <= |html|
    ensures start <= p <= |html| && tag == TagName(html[start..]) && html[p..] == AfterTag(html[start..])
  {
    hide RunLength, AfterTag, TagName;
    p := Skip(html, start, "> ", MAX_TAG);
    tag := html[start..p];
    ghost var s, n := html[start..], p - start;
    assert html[p..] == s[n..] && tag == s[..n];
    p := Skip(html, p, ">", |html|);
    TagRead(s, n, p - start - n, |html|);
    if p < |html| {
      p := p + 1;
      assert html[p..] == s[p - start..];
    }
  }

  class Document {
    var nodes: seq<Node>
    var current: nat

    constructor ()
      ensures nodes == [] && current == 0
    {
      nodes, current := [], 0;
    }

    ghost function State(): Dom
      reads this
    {
      Dom(nodes, current)
    }

    method CreateNode(kind: Kind) returns (id: nat)
      modifies this`nodes
      ensures id == |old(nodes)| && nodes == old(nodes) + [Created(kind)]
    {
      id := |nodes|;
      nodes := nodes + [Created(kind)];
    }

    method AppendChild(parent: nat, child: nat)
      requires parent < |nodes| && child < |nodes|
      requires forall k :: 0 <= k < |nodes[parent].children| ==> nodes[parent].children[k] < |nodes|
      modifies this`nodes
      ensures nodes == Appended(old(nodes), parent, child)
    {
      var children := nodes[parent].children;
      if |children| >= MAX_CHILDREN {
        return;
      }
      nodes := nodes[child := nodes[child].(parent := parent, prev := NONE, next := NONE)];
      if |children| > 0 {
        var last := children[|children| - 1];
        nodes := nodes[last := nodes[last].(next := child)];
        nodes := nodes[child := nodes[child].(prev := last)];
      }
      nodes := nodes[parent := nodes[parent].(children := nodes[parent].children + [child])];
    }

    method OpenTag(tag: string)
      requires Good(State())
      modifies this
      ensures State() == Tagged(old(State()), tag)
    {
      hide KindOf, NodeGood, Appended;
      var kind := KindOf(tag);
      if kind != Unknown {
        var id := CreateNode(kind);
        nodes := nodes[id := nodes[id].(tag := tag)];
        assert nodes == old(nodes) + [Created(kind).(tag := tag)];
        ChildrenInside(old(nodes), current);
        AppendChild(current, id);
        if !Void(kind) {
          current := id;
        }
      }
    }

    /** A tag, from its '<' past its '>'. */
    method ReadTag(html: string, from: nat) returns (p: nat)
      requires Good(State()) && from + 1 < |html| && html[from] == '<'
      modifies this
      ensures Good(State()) && from < p <= |html|
      ensures Parsed(html[p..], State()) == Parsed(html[from..], old(State()))
    {
      hide Good, Parsed, AfterTag, TagName, Tagged, Void;
      ParsedTag(html, from, State());
      p := from + 1;
      var closing := html[p] == '/';
      if closing {
        p := p + 1;
      }
      var tag;
      tag, p := ScanTag(html, p);
      if !closing {
        OpenTag(tag);
      } else {
        GoodCurrent(State());
        if nodes[current].parent != NONE {
          current := nodes[current].parent;
        }
      }
    }

    /** A run of text, up to the next '<' or as far as the buffer goes. */
    method ReadText(html: string, from: nat) returns (p: nat)
      requires Good(State()) && from < |html| && html[from] != '<'
      modifies this
      ensures Good(State()) && from < p <= |html|
      ensures Parsed(html[p..], State()) == Parsed(html[from..], old(State()))
    {
      hide Good, Parsed, RunLength, Trim;
      ParsedText(html[from..], State());
      p := Skip(html, from, "<", MAX_TEXT);
      var text := html[from..p];
      assert text == html[from..][..p - from] && html[p..] == html[from..][p - from..];
      var trimmed := TrimStart(text);
      if |trimmed| > 0 {
        GoodCurrent(State());
        nodes := nodes[current := nodes[current].(text := trimmed)];
      }
    }

    method Begin()
      requires nodes == []
      modifies this
      ensures Good(State()) && State() == Start()
    {
      hide Good, Appended;
      StartLinks();
      var root := CreateNode(Html);
      var head := CreateNode(Head);
      var body := CreateNode(Body);
      assert nodes == [Created(Html), Created(Head), Created(Body)];
      AppendChild(root, head);
      AppendChild(root, body);
      current := body;
      GoodStart();
    }

    method Parse(html: string)
      requires nodes == []
      modifies this
      ensures Good(Start()) && Good(State()) && State() == Parsed(html, Start())
    {
      hide Good, Parsed, Start;
      Begin();
      assert html[0..] == html;
      var p := 0;
      while p < |html|
        invariant p <= |html| && Good(State())
        invariant Parsed(html[p..], State()) == Parsed(html, Start())
        decreases |html| - p
      {
        assert p + 1 == |html| && html[p] == '<' ==> html[p..] == "<";
        if html[p] == '<' {
          if p + 1 >= |html| {
            break;
          }
          p := ReadTag(html, p);
        } else {
          p := ReadText(html, p);
        }
      }
      ParsedEnd(State());
      assert html[p..] == "" || html[p..] == "<";
    }
  }
}

/** The tree of tag nodes and its in-place update (LibraryByTagView.cpp, TagNode.cpp). Tags are interned and ordered by
    their name paths, so a tag is given here by its path; the empty path stands for "no tag". */
module TagViews {
  import opened Order
  import opened BookOrder

  datatype Child = BookNode(book: BookId) | SubNode(node: TagNode)

  class TagNode {
    const tag: Path
    /** Null for the root of the view. */
    const parent: TagNode?
    var children: seq<Child>

    constructor (tag: Path, parent: TagNode?)
      ensures this.tag == tag && this.parent == parent && children == []
    {
      this.tag, this.parent := tag, parent;
      children := [];
    }
  }

  // ---------- the children of one node ----------

  /** Book nodes first, then tag nodes in the order of their tags. */
  ghost predicate InShape(children: seq<Child>)
  {
    && (forall i, j :: 0 <= i < j < |children| && children[j].BookNode? ==> children[i].BookNode?)
    && (forall i, j :: 0 <= i < j < |children| && children[i].SubNode? && children[j].SubNode? ==>
          PathLess(children[i].node.tag, children[j].node.tag))
  }

  /** The books at the front. */
  function Books(children: seq<Child>): (r: seq<BookId>)
    ensures |r| <= |children| && forall i :: 0 <= i < |r| ==> children[i] == BookNode(r[i])
    ensures |r| < |children| ==> children[|r|].SubNode?
  {
    if children == [] || children[0].SubNode? then [] else [children[0].book] + Books(children[1..])
  }

  function BookNodes(books: seq<BookId>): (r: seq<Child>)
    ensures |r| == |books| && forall i :: 0 <= i < |r| ==> r[i] == BookNode(books[i])
  {
    seq(|books|, i requires 0 <= i < |books| => BookNode(books[i]))
  }

  predicate OnlySubNodes(children: seq<Child>) { forall c <- children :: c.SubNode? }

  lemma {:induction false} BooksAre(books: seq<BookId>, subs: seq<Child>)
    requires OnlySubNodes(subs)
    ensures Books(BookNodes(books) + subs) == books
  {
    var all := BookNodes(books) + subs;
    if books == [] {
      assert all == subs;
      assert subs != [] ==> subs[0] in subs;
    } else {
      assert all[1..] == BookNodes(books[1..]) + subs;
      BooksAre(books[1..], subs);
    }
  }

  lemma BooksAreFront(children: seq<Child>)
    requires InShape(children)
    ensures children == BookNodes(Books(children)) + children[|Books(children)|..]
    ensures OnlySubNodes(children[|Books(children)|..])
  {
    hide Books, PathLess;
    var n := |Books(children)|;
    assert forall i :: n <= i < |children| ==> children[i].SubNode?;
  }

  /** The place of a new tag node: from the end, in front of all tag nodes that are not smaller. */
  method PositionToInsert(children: seq<Child>, tag: Path) returns (at: nat)
    ensures at <= |children|
    ensures forall i :: at <= i < |children| ==> children[i].SubNode? && !PathLess(children[i].node.tag, tag)
    ensures at > 0 ==> children[at - 1].BookNode? || PathLess(children[at - 1].node.tag, tag)
  {
    at := |children|;
    while at > 0 && !(children[at - 1].BookNode? || PathLess(children[at - 1].node.tag, tag))
      invariant at <= |children|
      invariant forall i :: at <= i < |children| ==> children[i].SubNode? && !PathLess(children[i].node.tag, tag)
    {
      at := at - 1;
    }
  }

  /** The place found for a tag that has no node yet: everything before is a book or smaller, everything after
      larger. */
  ghost predicate IsPlace(children: seq<Child>, at: nat, tag: Path)
  {
    && at <= |children|
    && (forall i :: 0 <= i < at ==> children[i].BookNode? || PathLess(children[i].node.tag, tag))
    && (forall i :: at <= i < |children| ==> children[i].SubNode? && PathLess(tag, children[i].node.tag))
  }

  lemma FoundPlace(children: seq<Child>, at: nat, tag: Path)
    requires InShape(children) && at <= |children|
    requires forall i :: at <= i < |children| ==> children[i].SubNode? && !PathLess(children[i].node.tag, tag)
    requires at > 0 ==> children[at - 1].BookNode? || PathLess(children[at - 1].node.tag, tag)
    requires forall c <- children :: c.SubNode? ==> c.node.tag != tag
    ensures IsPlace(children, at, tag)
  {
    hide PathLess;
    forall i | at <= i < |children|
      ensures PathLess(tag, children[i].node.tag)
    {
      assert children[i] in children;
      PathTrichotomy(children[i].node.tag, tag);
    }
    forall i | 0 <= i < at && children[i].SubNode?
      ensures PathLess(children[i].node.tag, tag)
    {
      if i < at - 1 {
        PathTransitive(children[i].node.tag, children[at - 1].node.tag, tag);
      }
    }
  }

  /** Inserting there keeps the shape. */
  lemma InsertKeepsShape(children: seq<Child>, node: TagNode, at: nat)
    requires InShape(children) && IsPlace(children, at, node.tag)
    ensures InShape(children[..at] + [SubNode(node)] + children[at..])
  {
    hide PathLess;
    var now := children[..at] + [SubNode(node)] + children[at..];
    forall i | 0 <= i < |now| && i != at
      ensures now[i] == children[if i < at then i else i - 1]
    {
    }
  }

  lemma InsertKeepsBooks(children: seq<Child>, node: TagNode, at: nat)
    requires InShape(children) && IsPlace(children, at, node.tag)
    ensures Books(children[..at] + [SubNode(node)] + children[at..]) == Books(children)
  {
    hide PathLess, Books;
    BooksAreFront(children);
    hide InShape;
    var books := Books(children);
    var n := |books|;
    assert forall i :: 0 <= i < n ==> children[i].BookNode?;
    if at < |children| {
      assert children[at].SubNode?;
    }
    var subs := children[n..at] + [SubNode(node)] + children[at..];
    assert children[n..] == children[n..at] + children[at..];
    assert children[..at] == BookNodes(books) + children[n..at];
    assert children[..at] + [SubNode(node)] + children[at..] == BookNodes(books) + subs;
    assert forall c :: c in children[n..at] || c in children[at..] ==> c in children[n..];
    BooksAre(books, subs);
  }

  /** Removing a tag node keeps the shape and the books. */
  lemma RemoveKeepsShape(children: seq<Child>, at: nat)
    requires InShape(children) && at < |children| && children[at].SubNode?
    ensures InShape(children[..at] + children[at + 1..])
  {
    hide PathLess;
    var now := children[..at] + children[at + 1..];
    forall i | 0 <= i < |now|
      ensures now[i] == children[if i < at then i else i + 1]
    {
    }
  }

  lemma RemoveKeepsBooks(children: seq<Child>, at: nat)
    requires InShape(children) && at < |children| && children[at].SubNode?
    ensures Books(children[..at] + children[at + 1..]) == Books(children)
  {
    hide Books, InShape;
    BooksAreFront(children);
    var books := Books(children);
    var n := |books|;
    var subs := children[n..at] + children[at + 1..];
    assert OnlySubNodes(subs) by {
      assert forall c :: c in subs ==> c in children[n..];
    }
    hide OnlySubNodes;
    assert children[..at] + children[at + 1..] == BookNodes(books) + subs;
    BooksAre(books, subs);
  }

  // ---------- the books of one node ----------

  type Files = BookId -> string

  /** The same files in the same order; the book objects may differ. */
  predicate SameFiles(a: seq<BookId>, b: seq<BookId>, file: Files)
  {
    |a| == |b| && forall i :: 0 <= i < |a| ==> file(a[i]) == file(b[i])
  }

  /** How far two book lists agree. */
  function Agree(a: seq<BookId>, b: seq<BookId>, file: Files): (m: nat)
    ensures m <= |a| && m <= |b| && SameFiles(a[..m], b[..m], file)
    ensures m < |a| && m < |b| ==> file(a[m]) != file(b[m])
  {
    if a == [] || b == [] || file(a[0]) != file(b[0]) then 0 else 1 + Agree(a[1..], b[1..], file)
  }

  lemma {:induction false} AgreeIs(a: seq<BookId>, b: seq<BookId>, file: Files, m: nat)
    requires m <= |a| && m <= |b| && forall i :: 0 <= i < m ==> file(a[i]) == file(b[i])
    requires m == |a| || m == |b| || file(a[m]) != file(b[m])
    ensures Agree(a, b, file) == m
  {
    if m > 0 {
      assert forall i :: 0 <= i < m - 1 ==> file(a[1..][i]) == file(b[1..][i]) by {
        assert forall i :: 0 <= i < m - 1 ==> a[1..][i] == a[i + 1] && b[1..][i] == b[i + 1];
      }
      AgreeIs(a[1..], b[1..], file, m - 1);
    }
  }

  lemma PutTogether(books: seq<BookId>, subs: seq<Child>, was: seq<Child>, n: nat)
    requires InShape(was) && n <= |was| && subs == was[n..] && OnlySubNodes(subs)
    ensures InShape(BookNodes(books) + subs) && Books(BookNodes(books) + subs) == books
  {
    hide PathLess, Books;
    BooksAre(books, subs);
    var all := BookNodes(books) + subs;
    assert forall i :: |books| <= i < |all| ==>
      all[i] == was[n + i - |books|] && all[i] == subs[i - |books|] && subs[i - |books|] in subs;
  }

  /** The books of a node after the update: old nodes as far as the files agree, new ones from there on. */
  function Updated(was: seq<BookId>, books: seq<BookId>, file: Files): (r: seq<BookId>)
    ensures SameFiles(r, books, file)
  {
    var m := Agree(was, books, file);
    was[..m] + books[m..]
  }

  lemma {:induction false} AgreeBounds(a: seq<BookId>, b: seq<BookId>, file: Files, m: nat)
    requires m <= |a| && m <= |b|
    ensures (forall i :: 0 <= i < m ==> file(a[i]) == file(b[i])) ==> m <= Agree(a, b, file)
    ensures m < |a| && m < |b| && file(a[m]) != file(b[m]) ==> Agree(a, b, file) <= m
  {
    if m > 0 {
      AgreeBounds(a[1..], b[1..], file, m - 1);
      assert forall i :: 0 <= i < m - 1 ==> a[1..][i] == a[i + 1] && b[1..][i] == b[i + 1];
    }
  }

  /** Book nodes stay as far as the files agree, and not further. */
  lemma UpdatedKeeps(was: seq<BookId>, books: seq<BookId>, file: Files, m: nat)
    requires m <= |was| && m <= |books|
    ensures (forall i :: 0 <= i < m ==> file(was[i]) == file(books[i])) ==>
      Updated(was, books, file)[..m] == was[..m]
    ensures m < |was| && m < |books| && file(was[m]) != file(books[m]) ==> Updated(was, books, file)[m..] == books[m..]
  {
    hide Agree;
    AgreeBounds(was, books, file, m);
  }

  /** Brings the books of a node up to date and leaves its tag nodes alone. */
  method UpdateBookList(node: TagNode, books: seq<BookId>, file: Files)
    requires InShape(node.children)
    modifies node
    ensures InShape(node.children)
    ensures Books(node.children) == Updated(old(Books(node.children)), books, file)
    ensures node.children[|Books(node.children)|..] == old(node.children[|Books(node.children)|..])
  {
    hide Books, PathLess, InShape, Updated, SameFiles, Agree, BookNodes, OnlySubNodes;
    ghost var was := node.children;
    ghost var old_ := Books(was);
    ghost var subs := was[|old_|..];
    BooksAreFront(was);
    var m: nat := 0;
    while m < |books| && m < |node.children| && node.children[m].BookNode? &&
          file(node.children[m].book) == file(books[m])
      invariant node.children == was && m <= |books| && m <= |old_|
      invariant forall i :: 0 <= i < m ==> file(old_[i]) == file(books[i])
    {
      ReadsBook(old_, subs, m);
      m := m + 1;
    }
    ReadsBook(old_, subs, m);
    AgreeIs(old_, books, file, m);
    DeleteBooks(node, m, old_, subs);
    InsertBooks(node, books, m, old_[..m], subs);
    UpdatedIs(old_, books, file);
    PutTogether(old_[..m] + books[m..], subs, was, |old_|);
  }

  /** Deletes the book nodes from a place on. */
  method DeleteBooks(node: TagNode, m: nat, ghost was: seq<BookId>, ghost subs: seq<Child>)
    requires m <= |was| && node.children == BookNodes(was) + subs && OnlySubNodes(subs)
    modifies node
    ensures node.children == BookNodes(was[..m]) + subs
  {
    hide BookNodes, OnlySubNodes;
    ghost var d: nat := m;
    SplitBooks(was, m);
    while |node.children| > m && node.children[m].BookNode?
      invariant m <= d <= |was| && node.children == BookNodes(was[..m]) + BookNodes(was[d..]) + subs
      decreases |was| - d
    {
      DropsBook(was, subs, m, d);
      node.children := node.children[..m] + node.children[m + 1..];
      d := d + 1;
    }
    NoBookLeft(was, subs, m, d);
  }

  /** Inserts the remaining books behind those that were kept. */
  method InsertBooks(node: TagNode, books: seq<BookId>, m: nat, ghost kept: seq<BookId>, ghost subs: seq<Child>)
    requires |kept| == m <= |books| && node.children == BookNodes(kept) + subs
    modifies node
    ensures node.children == BookNodes(kept + books[m..]) + subs
  {
    hide BookNodes;
    var index: nat := m;
    assert kept + books[m..m] == kept;
    while index < |books|
      invariant m <= index <= |books| && node.children == BookNodes(kept + books[m..index]) + subs
    {
      AddsBook(kept, books, subs, m, index);
      node.children := node.children[..index] + [BookNode(books[index])] + node.children[index..];
      index := index + 1;
    }
    assert books[m..index] == books[m..];
  }

  lemma UpdatedIs(was: seq<BookId>, books: seq<BookId>, file: Files)
    ensures Agree(was, books, file) <= |was| && Agree(was, books, file) <= |books|
    ensures Updated(was, books, file) == was[..Agree(was, books, file)] + books[Agree(was, books, file)..]
  {
  }

  lemma ReadsBook(books: seq<BookId>, subs: seq<Child>, m: nat)
    requires m <= |books| && OnlySubNodes(subs)
    ensures m < |BookNodes(books) + subs| ==>
      ((BookNodes(books) + subs)[m].BookNode? <==> m < |books|) &&
      (m < |books| ==> (BookNodes(books) + subs)[m] == BookNode(books[m]))
  {
    if m == |books| && subs != [] {
      assert subs[0] in subs;
    }
  }

  lemma SplitBooks(books: seq<BookId>, m: nat)
    requires m <= |books|
    ensures BookNodes(books) == BookNodes(books[..m]) + BookNodes(books[m..])
  {
  }

  lemma DropsBook(books: seq<BookId>, subs: seq<Child>, m: nat, d: nat)
    requires m <= d <= |books| && OnlySubNodes(subs)
    requires
      var now := BookNodes(books[..m]) + BookNodes(books[d..]) + subs;
      |now| > m && now[m].BookNode?
    ensures d < |books|
    ensures
      var now := BookNodes(books[..m]) + BookNodes(books[d..]) + subs;
      now[..m] + now[m + 1..] == BookNodes(books[..m]) + BookNodes(books[d + 1..]) + subs
  {
    var now := BookNodes(books[..m]) + BookNodes(books[d..]) + subs;
    assert subs != [] ==> subs[0] in subs;
    assert d < |books|;
    assert BookNodes(books[d..])[1..] == BookNodes(books[d + 1..]);
  }

  lemma NoBookLeft(books: seq<BookId>, subs: seq<Child>, m: nat, d: nat)
    requires m <= d <= |books| && OnlySubNodes(subs)
    requires
      var now := BookNodes(books[..m]) + BookNodes(books[d..]) + subs;
      |now| <= m || !now[m].BookNode?
    ensures BookNodes(books[..m]) + BookNodes(books[d..]) + subs == BookNodes(books[..m]) + subs
  {
    assert d < |books| ==> (BookNodes(books[..m]) + BookNodes(books[d..]) + subs)[m] == BookNodes(books[d..])[0];
  }

  lemma AddsBook(kept: seq<BookId>, books: seq<BookId>, subs: seq<Child>, m: nat, index: nat)
    requires |kept| == m <= index < |books|
    ensures
      var now := BookNodes(kept + books[m..index]) + subs;
      index <= |now| &&
      now[..index] + [BookNode(books[index])] + now[index..] == BookNodes(kept + books[m..index + 1]) + subs
  {
  }

  // ---------- the whole tree ----------

  /** Every tag has one node, under the node of its parent tag; "no tag" and tags without parent are under the root. */
  ghost predicate Rooted(nodes: set<TagNode>, root: TagNode)
  {
    && root.parent == null && root !in nodes
    && (forall n <- nodes :: if |n.tag| <= 1 then n.parent == root
                             else n.parent != null && n.parent in nodes && n.parent.tag == n.tag[..|n.tag| - 1])
    && (forall n <- nodes, m <- nodes :: n.tag == m.tag ==> n == m)
  }

  /** The children of a node are in shape, and its tag nodes are just those that name it as their parent. */
  ghost predicate LinksRight(m: TagNode, nodes: set<TagNode>)
    reads m
  {
    && InShape(m.children)
    && (forall c <- m.children :: c.SubNode? ==> c.node in nodes && c.node.parent == m)
    && (forall c <- nodes :: c.parent == m ==> SubNode(c) in m.children)
  }

  ghost predicate IsTree(nodes: set<TagNode>, root: TagNode)
    reads root, nodes
  {
    Rooted(nodes, root) && LinksRight(root, nodes) && forall n <- nodes :: LinksRight(n, nodes)
  }

  /** Where a tag's node belongs. */
  ghost predicate BelongsUnder(tag: Path, parent: TagNode, nodes: set<TagNode>, root: TagNode)
  {
    if |tag| <= 1 then parent == root else parent in nodes && parent.tag == tag[..|tag| - 1]
  }

  lemma RootedWithOneMore(nodes: set<TagNode>, root: TagNode, node: TagNode)
    requires Rooted(nodes, root) && node !in nodes && node != root && node.parent != null
    requires BelongsUnder(node.tag, node.parent, nodes, root)
    requires forall n <- nodes :: n.tag != node.tag
    ensures Rooted(nodes + {node}, root)
  {
  }

  lemma RootedWithOneLess(nodes: set<TagNode>, root: TagNode, node: TagNode)
    requires Rooted(nodes, root) && forall n <- nodes :: n.parent != node
    ensures Rooted(nodes - {node}, root)
  {
  }

  lemma LinksWithOneMore(m: TagNode, nodes: set<TagNode>, node: TagNode)
    requires LinksRight(m, nodes) && node.parent != m
    ensures LinksRight(m, nodes + {node})
  {
  }

  lemma LinksWithOneLess(m: TagNode, nodes: set<TagNode>, node: TagNode)
    requires LinksRight(m, nodes) && node.parent != m
    ensures LinksRight(m, nodes - {node})
  {
  }

  lemma OthersWithOneMore(nodes: set<TagNode>, root: TagNode, parent: TagNode, node: TagNode)
    requires node.parent == parent && forall m <- nodes + {root} :: m != parent ==> LinksRight(m, nodes)
    ensures forall m <- nodes + {root} :: m != parent ==> LinksRight(m, nodes + {node})
  {
    hide LinksRight;
    forall m | m in nodes + {root} && m != parent
      ensures LinksRight(m, nodes + {node})
    {
      LinksWithOneMore(m, nodes, node);
    }
  }

  lemma OthersWithOneLess(nodes: set<TagNode>, root: TagNode, parent: TagNode, node: TagNode)
    requires node.parent == parent && forall m <- nodes + {root} :: m != parent ==> LinksRight(m, nodes)
    ensures forall m <- nodes + {root} :: m != parent ==> LinksRight(m, nodes - {node})
  {
    hide LinksRight;
    forall m | m in nodes + {root} && m != parent
      ensures LinksRight(m, nodes - {node})
    {
      LinksWithOneLess(m, nodes, node);
    }
  }

  lemma LinksAfterInsert(was: seq<Child>, m: TagNode, nodes: set<TagNode>, node: TagNode, at: nat)
    requires InShape(was) && IsPlace(was, at, node.tag) && node.parent == m
    requires forall c <- was :: c.SubNode? ==> c.node in nodes && c.node.parent == m
    requires forall c <- nodes :: c.parent == m ==> SubNode(c) in was
    requires m.children == was[..at] + [SubNode(node)] + was[at..]
    ensures LinksRight(m, nodes + {node})
  {
    hide PathLess;
    InsertKeepsShape(was, node, at);
    hide InShape;
    assert was == was[..at] + was[at..];
  }

  lemma LinksAfterRemove(was: seq<Child>, m: TagNode, nodes: set<TagNode>, node: TagNode, at: nat)
    requires InShape(was) && at < |was| && was[at] == SubNode(node)
    requires forall c <- was :: c.SubNode? ==> c.node in nodes && c.node.parent == m
    requires forall c <- nodes :: c.parent == m ==> SubNode(c) in was
    requires m.children == was[..at] + was[at + 1..]
    ensures LinksRight(m, nodes - {node})
  {
    hide PathLess;
    RemoveKeepsShape(was, at);
    OccursOnce(was, at);
    hide InShape;
    assert was == was[..at] + [was[at]] + was[at + 1..];
  }

  lemma OccursOnce(children: seq<Child>, at: nat)
    requires InShape(children) && at < |children| && children[at].SubNode?
    ensures children[at] !in children[..at] && children[at] !in children[at + 1..]
  {
    hide PathLess;
    PathTrichotomy(children[at].node.tag, children[at].node.tag);
  }

  // ---------- finding all nodes ----------

  /** `n` is `node` or somewhere below it. */
  ghost predicate Within(n: TagNode, node: TagNode) { n == node || (node.tag != [] && node.tag < n.tag) }

  ghost predicate IsBelow(n: TagNode, node: TagNode, root: TagNode) { node == root || (n != node && Within(n, node)) }

  /** Some tag node in the list has `n` within its subtree. */
  ghost predicate Covered(n: TagNode, children: seq<Child>)
  {
    exists c <- children :: c.SubNode? && Within(n, c.node)
  }

  lemma CoveredStep(n: TagNode, children: seq<Child>, c: Child)
    ensures Covered(n, children + [c]) <==> Covered(n, children) || (c.SubNode? && Within(n, c.node))
  {
    if Covered(n, children) {
      var d :| d in children && d.SubNode? && Within(n, d.node);
      assert d in children + [c];
    }
    assert c in children + [c];
  }

  lemma {:induction false} AncestorHasNode(nodes: set<TagNode>, root: TagNode, n: TagNode, k: nat)
    requires Rooted(nodes, root) && n in nodes && 1 <= k <= |n.tag|
    ensures exists c <- nodes :: c.tag == n.tag[..k]
    decreases |n.tag|
  {
    if k == |n.tag| {
      assert n.tag[..k] == n.tag;
    } else {
      AncestorHasNode(nodes, root, n.parent, k);
      assert n.parent.tag[..k] == n.tag[..k];
    }
  }

  /** A node is below another one exactly when it is within one of its tag nodes. */
  lemma BelowThroughChild(nodes: set<TagNode>, root: TagNode, node: TagNode, n: TagNode)
    requires Rooted(nodes, root) && LinksRight(node, nodes) && n in nodes && (node == root || node in nodes)
    ensures IsBelow(n, node, root) <==> Covered(n, node.children)
  {
    hide InShape;
    if IsBelow(n, node, root) {
      var c := ChildTowards(nodes, root, node, n);
      assert SubNode(c) in node.children;
    }
  }

  lemma ChildTowards(nodes: set<TagNode>, root: TagNode, node: TagNode, n: TagNode) returns (c: TagNode)
    requires Rooted(nodes, root) && n in nodes && (node == root || node in nodes) && IsBelow(n, node, root)
    ensures c in nodes && c.parent == node && Within(n, c)
  {
    if |n.tag| <= 1 {
      c := n;
    } else {
      var k := if node == root then 1 else |node.tag| + 1;
      AncestorHasNode(nodes, root, n, k);
      c :| c in nodes && c.tag == n.tag[..k];
      if node != root {
        assert c.tag[..|c.tag| - 1] == node.tag;
      }
      if k == |n.tag| {
        assert n.tag[..k] == n.tag;
      }
    }
  }

  lemma {:induction false} TagsAreBounded(nodes: set<TagNode>) returns (limit: nat)
    ensures forall n <- nodes :: |n.tag| <= limit
  {
    if nodes == {} {
      limit := 0;
    } else {
      var n :| n in nodes;
      var m := TagsAreBounded(nodes - {n});
      limit := if m < |n.tag| then |n.tag| else m;
      assert forall c <- nodes :: c == n || c in nodes - {n};
    }
  }

  ghost function Depth(node: TagNode, root: TagNode): nat
  {
    if node == root then 0 else if node.tag == [] then 1 else |node.tag|
  }

  /** A map from tags to their nodes. */
  ghost predicate MapsTags(nodeMap: map<Path, TagNode>, nodes: set<TagNode>)
  {
    forall p <- nodeMap :: nodeMap[p] in nodes && nodeMap[p].tag == p
  }

  /** The same for all nodes there are. */
  ghost predicate MapsAll(nodeMap: map<Path, TagNode>, nodes: set<TagNode>)
  {
    MapsTags(nodeMap, nodes) && forall n <- nodes :: n.tag in nodeMap
  }

  /** What the map holds after the subtrees of some children have been visited. */
  ghost predicate Gathered(nodeMap: map<Path, TagNode>, now: map<Path, TagNode>, nodes: set<TagNode>, seen: seq<Child>)
  {
    MapsTags(now, nodes) && forall n <- nodes :: n.tag in now <==> n.tag in nodeMap || Covered(n, seen)
  }

  lemma GatheredNone(nodeMap: map<Path, TagNode>, nodes: set<TagNode>)
    requires MapsTags(nodeMap, nodes)
    ensures Gathered(nodeMap, nodeMap, nodes, [])
  {
  }

  lemma GatheredSkip(nodeMap: map<Path, TagNode>, now: map<Path, TagNode>, nodes: set<TagNode>, seen: seq<Child>,
                     c: Child)
    requires Gathered(nodeMap, now, nodes, seen) && c.BookNode?
    ensures Gathered(nodeMap, now, nodes, seen + [c])
  {
    hide Covered;
    forall n | n in nodes
      ensures Covered(n, seen + [c]) <==> Covered(n, seen)
    {
      CoveredStep(n, seen, c);
    }
  }

  lemma GatheredMaps(nodeMap: map<Path, TagNode>, now: map<Path, TagNode>, nodes: set<TagNode>, seen: seq<Child>,
                     node: TagNode)
    requires Gathered(nodeMap, now, nodes, seen) && node in nodes
    ensures MapsTags(now[node.tag := node], nodes)
  {
    hide Covered;
  }

  lemma GatheredAll(nodeMap: map<Path, TagNode>, now: map<Path, TagNode>, nodes: set<TagNode>, root: TagNode,
                    node: TagNode)
    requires Rooted(nodes, root) && LinksRight(node, nodes) && (node == root || node in nodes)
    requires Gathered(nodeMap, now, nodes, node.children)
    ensures MapsTags(now, nodes)
    ensures forall n <- nodes :: n.tag in now <==> n.tag in nodeMap || IsBelow(n, node, root)
  {
    hide Covered, IsBelow, Rooted, LinksRight;
    forall n | n in nodes
      ensures IsBelow(n, node, root) <==> Covered(n, node.children)
    {
      BelowThroughChild(nodes, root, node, n);
    }
  }

  lemma DeeperChild(nodes: set<TagNode>, root: TagNode, node: TagNode, c: TagNode, limit: nat)
    requires Rooted(nodes, root) && c in nodes && c.parent == node && |c.tag| <= limit
    ensures Depth(node, root) < Depth(c, root) <= limit + 1
  {
  }

  lemma GatheredOne(nodeMap: map<Path, TagNode>, now: map<Path, TagNode>, next: map<Path, TagNode>,
                    nodes: set<TagNode>, root: TagNode, seen: seq<Child>, node: TagNode)
    requires Rooted(nodes, root) && Gathered(nodeMap, now, nodes, seen) && node in nodes
    requires MapsTags(next, nodes)
    requires forall n <- nodes :: n.tag in next <==> n.tag in now[node.tag := node] || IsBelow(n, node, root)
    ensures Gathered(nodeMap, next, nodes, seen + [SubNode(node)])
  {
    hide Covered;
    forall n | n in nodes
      ensures n.tag in next <==> n.tag in nodeMap || Covered(n, seen + [SubNode(node)])
    {
      CoveredStep(n, seen, SubNode(node));
    }
  }

  // ---------- one pass over the tags ----------

  /** A list of different tags that holds the parent of a tag before the tag itself. */
  ghost predicate ParentsFirst(tags: seq<Path>)
  {
    && (forall i, j :: 0 <= i < j < |tags| ==> tags[i] != tags[j])
    && (forall i :: 0 <= i < |tags| && |tags[i]| > 1 ==> tags[i][..|tags[i]| - 1] in tags[..i])
  }

  /** The books of each node. */
  ghost function BookLists(nodes: set<TagNode>): map<TagNode, seq<BookId>>
    reads nodes
  {
    map n | n in nodes :: Books(n.children)
  }

  ghost function Before(n: TagNode, before: map<TagNode, seq<BookId>>): seq<BookId>
  {
    if n in before then before[n] else []
  }

  /** Nodes of the tags that have been dealt with list the right books; the others list what they did. */
  ghost predicate BooksSo(lists: map<TagNode, seq<BookId>>, done: seq<Path>, before: map<TagNode, seq<BookId>>,
                          books: Path -> seq<BookId>, file: Files)
  {
    forall n <- lists ::
      lists[n] == if n.tag in done then Updated(Before(n, before), books(n.tag), file) else Before(n, before)
  }

  lemma BooksSoAdded(lists: map<TagNode, seq<BookId>>, done: seq<Path>, before: map<TagNode, seq<BookId>>,
                     books: Path -> seq<BookId>, file: Files, node: TagNode)
    requires BooksSo(lists, done, before, books, file) && node !in before && node.tag !in done
    ensures BooksSo(lists[node := []], done, before, books, file)
  {
    hide Updated;
  }

  lemma BooksSoUpdated(lists: map<TagNode, seq<BookId>>, tags: seq<Path>, k: nat, before: map<TagNode, seq<BookId>>,
                       books: Path -> seq<BookId>, file: Files, node: TagNode)
    requires k < |tags| && BooksSo(lists, tags[..k], before, books, file) && ParentsFirst(tags)
    requires node in lists && node.tag == tags[k] && forall n <- lists :: n.tag == tags[k] ==> n == node
    ensures BooksSo(lists[node := Updated(lists[node], books(node.tag), file)], tags[..k + 1], before, books, file)
  {
    hide Updated, Before;
    assert tags[..k + 1] == tags[..k] + [tags[k]];
    assert tags[k] !in tags[..k];
  }

  lemma BooksSoRemoved(lists: map<TagNode, seq<BookId>>, done: seq<Path>, before: map<TagNode, seq<BookId>>,
                       books: Path -> seq<BookId>, file: Files, node: TagNode)
    requires BooksSo(lists, done, before, books, file)
    ensures BooksSo(lists - {node}, done, before, books, file)
  {
    hide Updated, Before;
  }

  lemma BooksSoMeans(lists: map<TagNode, seq<BookId>>, tags: seq<Path>, before: map<TagNode, seq<BookId>>,
                     books: Path -> seq<BookId>, file: Files)
    requires BooksSo(lists, tags, before, books, file) && forall n <- lists :: n.tag in tags
    ensures forall n <- lists :: n in before ==> lists[n] == Updated(before[n], books(n.tag), file)
    ensures forall n <- lists :: n !in before ==> lists[n] == books(n.tag)
    ensures forall n <- lists :: SameFiles(lists[n], books(n.tag), file)
  {
    hide SameFiles, Agree;
    forall n | n in lists && n !in before
      ensures lists[n] == books(n.tag)
    {
      assert books(n.tag)[0..] == books(n.tag) && [][..0] + books(n.tag) == books(n.tag);
    }
  }

  // ---------- the order of deletion ----------

  /** Nothing hangs below the last of the tags that go: what hangs below a tag comes after it, and a tag that stays has
      its parents in the list. */
  lemma LastIsLeaf(nodes: set<TagNode>, root: TagNode, tags: seq<Path>, gone: set<Path>, node: TagNode)
    requires Rooted(nodes, root) && ParentsFirst(tags) && node in nodes && node.tag in gone
    requires forall n <- nodes :: n.tag in gone <==> n.tag !in tags
    requires forall p <- gone :: PathAtMost(p, node.tag)
    ensures forall n <- nodes :: n.parent != node
  {
    hide PathLess;
    forall n | n in nodes
      ensures n.parent != node
    {
      if n.parent == node {
        assert node.tag == n.tag[..|n.tag| - 1];
        PrefixFirst(node.tag, n.tag);
        PathTrichotomy(node.tag, n.tag);
        ParentListed(tags, n.tag);
        assert false;
      }
    }
  }

  lemma ParentListed(tags: seq<Path>, tag: Path)
    requires ParentsFirst(tags) && |tag| > 1 && tag in tags
    ensures tag[..|tag| - 1] in tags
  {
    var i :| 0 <= i < |tags| && tags[i] == tag;
    assert tag[..|tag| - 1] in tags[..i];
  }

  lemma {:induction false} LastExists(paths: set<Path>)
    requires paths != {}
    ensures exists p <- paths :: forall q <- paths :: PathAtMost(q, p)
  {
    hide PathLess;
    var p :| p in paths;
    var rest := paths - {p};
    if rest == {} {
      assert paths == {p};
      assert forall q <- paths :: PathAtMost(q, p);
    } else {
      LastExists(rest);
      var r :| r in rest && forall q <- rest :: PathAtMost(q, r);
      PathTrichotomy(p, r);
      var last := if PathLess(p, r) then r else p;
      forall q | q in paths
        ensures PathAtMost(q, last)
      {
        if q != p && q != r && last == p {
          assert q in rest && r in rest;
          PathTransitive(q, r, p);
        }
      }
    }
  }

  class TagView {
    const root: TagNode
    ghost var nodes: set<TagNode>

    constructor ()
      ensures Valid() && nodes == {} && fresh(root)
    {
      root := new TagNode([], null);
      nodes := {};
    }

    ghost predicate Valid()
      reads this, root, nodes
    {
      IsTree(nodes, root)
    }

    /** A tag node inserts itself among the children of its parent. */
    method AddNode(parent: TagNode, tag: Path) returns (node: TagNode)
      requires Valid() && BelongsUnder(tag, parent, nodes, root) && forall n <- nodes :: n.tag != tag
      modifies this, parent
      ensures Valid() && fresh(node) && nodes == old(nodes) + {node} && node.tag == tag && node.parent == parent
      ensures node.children == [] && Books(parent.children) == old(Books(parent.children))
    {
      hide InShape, PathLess, Books, IsPlace, LinksRight, OnlySubNodes, Rooted;
      ghost var was := parent.children;
      assert parent == root || parent in nodes;
      LinksMean(parent, nodes);
      var at := PositionToInsert(parent.children, tag);
      node := new TagNode(tag, parent);
      FoundPlace(was, at, tag);
      RootedWithOneMore(nodes, root, node);
      parent.children := parent.children[..at] + [SubNode(node)] + parent.children[at..];
      InsertKeepsBooks(was, node, at);
      LinksAfterInsert(was, parent, nodes, node, at);
      NoLinks(node, nodes + {node});
      OthersWithOneMore(nodes, root, parent, node);
      nodes := nodes + {node};
    }

    /** Enters the nodes below `node` into the map. */
    method CollectTagNodes(node: TagNode, nodeMap: map<Path, TagNode>, ghost limit: nat) returns (r: map<Path, TagNode>)
      requires Valid() && (node == root || node in nodes) && MapsTags(nodeMap, nodes)
      requires Depth(node, root) <= limit + 1 && forall n <- nodes :: |n.tag| <= limit
      ensures MapsTags(r, nodes)
      ensures forall n <- nodes :: n.tag in r <==> n.tag in nodeMap || IsBelow(n, node, root)
      decreases limit + 1 - Depth(node, root)
    {
      hide InShape, Covered, LinksRight, Gathered, MapsTags, Rooted, Depth, IsBelow, PathLess;
      r := nodeMap;
      LinksMean(node, nodes);
      GatheredNone(nodeMap, nodes);
      for i := 0 to |node.children|
        invariant Gathered(nodeMap, r, nodes, node.children[..i])
      {
        assert node.children[..i + 1] == node.children[..i] + [node.children[i]];
        if node.children[i].SubNode? {
          var tagNode := node.children[i].node;
          assert node.children[i] in node.children;
          DeeperChild(nodes, root, node, tagNode, limit);
          GatheredMaps(nodeMap, r, nodes, node.children[..i], tagNode);
          var next := CollectTagNodes(tagNode, r[tagNode.tag := tagNode], limit);
          GatheredOne(nodeMap, r, next, nodes, root, node.children[..i], tagNode);
          r := next;
        } else {
          GatheredSkip(nodeMap, r, nodes, node.children[..i], node.children[i]);
        }
      }
      assert node.children[..|node.children|] == node.children;
      GatheredAll(nodeMap, r, nodes, root, node);
    }

    /** Deleting a node takes it out of its parent's children. */
    method DeleteNode(node: TagNode)
      requires Valid() && node in nodes && forall n <- nodes :: n.parent != node
      requires node.parent != null
      modifies this, node, node.parent
      ensures Valid() && nodes == old(nodes) - {node}
      ensures Books(node.parent.children) == old(Books(node.parent.children))
    {
      hide InShape, PathLess, Books, LinksRight;
      var parent := node.parent;
      ghost var was := parent.children;
      assert parent == root || parent in nodes;
      LinksMean(parent, nodes);
      var at: nat := 0;
      while parent.children[at] != SubNode(node)
        invariant at < |parent.children| && SubNode(node) in parent.children[at..]
        invariant parent.children == was
        decreases |parent.children| - at
      {
        at := at + 1;
      }
      parent.children := parent.children[..at] + parent.children[at + 1..];
      RemoveKeepsBooks(was, at);
      LinksAfterRemove(was, parent, nodes, node, at);
      RootedWithOneLess(nodes, root, node);
      OthersWithOneLess(nodes, root, parent, node);
      nodes := nodes - {node};
      node.children := [];
    }

    /** Brings the tree up to date with the library's tags and books. */
    method MakeUpToDate(tags: seq<Path>, books: Path -> seq<BookId>, file: Files)
      requires Valid() && ParentsFirst(tags)
      modifies this, root, nodes
      ensures Valid()
      // a node for every tag and no other; nodes whose tag stays are the same nodes
      ensures (forall n <- nodes :: n.tag in tags) && forall t <- tags :: exists n <- nodes :: n.tag == t
      ensures forall n <- old(nodes) :: n in nodes <==> n.tag in tags
      ensures forall n <- nodes :: n !in old(nodes) ==> fresh(n) && Books(n.children) == books(n.tag)
      // old nodes keep their book nodes as far as the files agree
      ensures forall n <- nodes :: n in old(nodes) ==>
        Books(n.children) == Updated(old(Books(n.children)), books(n.tag), file)
      ensures forall n <- nodes :: SameFiles(Books(n.children), books(n.tag), file)
    {
      hide Books, Updated, SameFiles, IsTree, BooksSo;
      ghost var before := BookLists(nodes);
      Refresh(tags, before, books, file);
      BooksSoMeans(BookLists(nodes), tags, before, books, file);
    }

    /** The passes of the update, one after the other. */
    method Refresh(tags: seq<Path>, ghost before: map<TagNode, seq<BookId>>, books: Path -> seq<BookId>, file: Files)
      requires Valid() && ParentsFirst(tags) && before == BookLists(nodes)
      modifies this, root, nodes
      ensures Valid() && BooksSo(BookLists(nodes), tags, before, books, file) && fresh(nodes - old(nodes))
      ensures (forall n <- nodes :: n.tag in tags) && forall t <- tags :: exists n <- nodes :: n.tag == t
      ensures forall n <- old(nodes) :: n in nodes <==> n.tag in tags
    {
      hide Books, Updated, SameFiles, IsTree, MapsAll, MapsTags, Pending, BooksSo, Before, ParentsFirst, Listed,
        BookLists;
      ghost var limit := TagsAreBounded(nodes);
      var nodeMap: map<Path, TagNode> := CollectAll(limit);
      nodeMap := UpdateTags(tags, nodeMap, before, books, file);
      ListedHasTags(nodes, tags, nodeMap);
      var unlisted := Unlisted(tags, nodeMap);
      MapsUnlisted(nodes, tags, nodeMap, unlisted);
      DeleteUnlisted(tags, unlisted, before, books, file);
    }

    /** Finds or makes the node of every tag and lists its books. */
    method UpdateTags(tags: seq<Path>, oldMap: map<Path, TagNode>, ghost before: map<TagNode, seq<BookId>>,
                      books: Path -> seq<BookId>, file: Files) returns (nodeMap: map<Path, TagNode>)
      requires Valid() && ParentsFirst(tags) && MapsAll(oldMap, nodes) && before == BookLists(nodes)
      modifies this, root, nodes
      ensures Valid() && MapsAll(nodeMap, nodes) && old(nodes) <= nodes && fresh(nodes - old(nodes))
      ensures forall n <- nodes - old(nodes) :: n.tag in tags
      ensures forall t <- tags :: t in nodeMap
      ensures BooksSo(BookLists(nodes), tags, before, books, file)
    {
      hide Books, Updated, SameFiles, IsTree, MapsAll, BooksSo, Before, ParentsFirst;
      nodeMap := oldMap;
      StartsUnchanged(before, books, file);
      for k := 0 to |tags|
        invariant Valid() && MapsAll(nodeMap, nodes)
        invariant forall t <- tags[..k] :: t in nodeMap
        invariant old(nodes) <= nodes && fresh(nodes - old(nodes))
        invariant forall n <- nodes - old(nodes) :: n.tag in tags[..k]
        invariant BooksSo(BookLists(nodes), tags[..k], before, books, file)
      {
        assert tags[..k + 1] == tags[..k] + [tags[k]];
        var tagNode := UpdateTag(tags, k, nodeMap, before, books, file);
        nodeMap := nodeMap[tags[k] := tagNode];
      }
      assert tags[..|tags|] == tags;
    }

    method CollectAll(ghost limit: nat) returns (nodeMap: map<Path, TagNode>)
      requires Valid() && forall n <- nodes :: |n.tag| <= limit
      ensures MapsAll(nodeMap, nodes)
    {
      var empty: map<Path, TagNode> := map[];
      nodeMap := CollectTagNodes(root, empty, limit);
      assert forall n <- nodes :: IsBelow(n, root, root);
    }

    /** The node of a tag; a new one under the node of the parent tag, when there is none. */
    method FindOrAdd(tags: seq<Path>, k: nat, nodeMap: map<Path, TagNode>) returns (tagNode: TagNode)
      requires Valid() && ParentsFirst(tags) && k < |tags| && MapsAll(nodeMap, nodes)
      requires forall t <- tags[..k] :: t in nodeMap
      modifies this, root, nodes
      ensures Valid() && tagNode in nodes && tagNode.tag == tags[k] && MapsAll(nodeMap[tags[k] := tagNode], nodes)
      ensures tags[k] in nodeMap ==>
        nodes == old(nodes) && tagNode == nodeMap[tags[k]] && BookLists(nodes) == old(BookLists(nodes))
      ensures tags[k] !in nodeMap ==>
        fresh(tagNode) && nodes == old(nodes) + {tagNode} && BookLists(nodes) == old(BookLists(nodes))[tagNode := []]
    {
      hide Books, LinksRight, Rooted, PathLess, InShape;
      var tag := tags[k];
      if tag in nodeMap {
        tagNode := nodeMap[tag];
      } else {
        var parent := if |tag| <= 1 then root else nodeMap[tag[..|tag| - 1]];
        tagNode := AddNode(parent, tag);
      }
    }

    /** The step for one tag. */
    method UpdateTag(tags: seq<Path>, k: nat, nodeMap: map<Path, TagNode>, ghost before: map<TagNode, seq<BookId>>,
                     books: Path -> seq<BookId>, file: Files) returns (tagNode: TagNode)
      requires Valid() && ParentsFirst(tags) && k < |tags| && MapsAll(nodeMap, nodes)
      requires forall t <- tags[..k] :: t in nodeMap
      requires BooksSo(BookLists(nodes), tags[..k], before, books, file)
      requires forall n <- before :: n in nodes
      modifies this, root, nodes
      ensures Valid() && tagNode.tag == tags[k]
      ensures tags[k] in nodeMap ==> nodes == old(nodes) && tagNode == nodeMap[tags[k]]
      ensures tags[k] !in nodeMap ==> fresh(tagNode) && nodes == old(nodes) + {tagNode}
      ensures MapsAll(nodeMap[tags[k] := tagNode], nodes)
      ensures BooksSo(BookLists(nodes), tags[..k + 1], before, books, file)
    {
      hide Books, Updated, SameFiles, LinksRight, Rooted, BooksSo, Before, PathLess, InShape, MapsAll, ParentsFirst;
      tagNode := FindOrAdd(tags, k, nodeMap);
      if tags[k] !in nodeMap {
        NotDoneYet(tags, k);
        BooksSoAdded(old(BookLists(nodes)), tags[..k], before, books, file, tagNode);
      }
      TagsDiffer(nodes, root);
      BooksSoUpdated(BookLists(nodes), tags, k, before, books, file, tagNode);
      UpdateInTree(tagNode, books(tagNode.tag), file);
    }

    method UpdateInTree(node: TagNode, books: seq<BookId>, file: Files)
      requires Valid() && node in nodes
      modifies node
      ensures Valid()
      ensures BookLists(nodes) == old(BookLists(nodes))[node := Updated(old(Books(node.children)), books, file)]
    {
      hide Books, Updated, SameFiles, LinksRight, PathLess, InShape;
      assert root != node by { TagsDiffer(nodes, root); }
      hide Rooted;
      LinksMean(node, nodes);
      ghost var children := node.children;
      UpdateBookList(node, books, file);
      LinksAfterUpdate(children, node, nodes);
    }

    /** Deletes the nodes whose tags are not in the list, the last tag first. */
    method DeleteUnlisted(tags: seq<Path>, unlisted: map<Path, TagNode>, ghost before: map<TagNode, seq<BookId>>,
                          books: Path -> seq<BookId>, file: Files)
      requires Valid() && ParentsFirst(tags) && Pending(nodes, nodes, tags, unlisted)
      requires BooksSo(BookLists(nodes), tags, before, books, file)
      modifies this, root, nodes
      ensures Valid() && nodes == Listed(old(nodes), tags)
      ensures BooksSo(BookLists(nodes), tags, before, books, file)
    {
      hide Books, Updated, SameFiles, IsTree, Rooted, BooksSo, Before, PathAtMost, InShape, ParentsFirst, Pending,
        Listed;
      var nodeMap := unlisted;
      ghost var was := nodes;
      while nodeMap != map[]
        invariant Valid() && Pending(nodes, was, tags, nodeMap) && nodes <= was
        invariant BooksSo(BookLists(nodes), tags, before, books, file)
        decreases |nodeMap|
      {
        LastExists(nodeMap.Keys);
        var last :| last in nodeMap.Keys && forall p <- nodeMap.Keys :: PathAtMost(p, last);
        LeafNext(nodes, root, was, tags, nodeMap, last);
        BooksSoRemoved(BookLists(nodes), tags, before, books, file, nodeMap[last]);
        DeleteLeaf(nodeMap[last]);
        nodeMap := nodeMap - {last};
      }
      NothingPending(nodes, was, tags);
    }

    method DeleteLeaf(node: TagNode)
      requires Valid() && node in nodes && forall n <- nodes :: n.parent != node
      modifies this, root, nodes
      ensures Valid() && nodes == old(nodes) - {node} && BookLists(nodes) == old(BookLists(nodes)) - {node}
    {
      hide Books, LinksRight;
      HasParent(nodes, root, node);
      TagsDiffer(nodes, root);
      hide Rooted, InShape, PathLess;
      DeleteNode(node);
    }
  }

  /** The map holds just the nodes still to be deleted; all nodes of listed tags are still there. */
  ghost predicate Pending(nodes: set<TagNode>, was: set<TagNode>, tags: seq<Path>, nodeMap: map<Path, TagNode>)
  {
    && MapsTags(nodeMap, nodes) && (forall n <- nodes :: n.tag in nodeMap <==> n.tag !in tags)
    && nodes <= was && (forall n <- was :: n.tag in tags ==> n in nodes)
  }

  ghost function Listed(nodes: set<TagNode>, tags: seq<Path>): set<TagNode>
  {
    set n | n in nodes && n.tag in tags
  }

  lemma NothingPending(nodes: set<TagNode>, was: set<TagNode>, tags: seq<Path>)
    requires Pending(nodes, was, tags, map[])
    ensures nodes == Listed(was, tags)
  {
  }

  lemma LeafNext(nodes: set<TagNode>, root: TagNode, was: set<TagNode>, tags: seq<Path>, nodeMap: map<Path, TagNode>,
                 last: Path)
    requires IsTree(nodes, root) && ParentsFirst(tags) && Pending(nodes, was, tags, nodeMap) && last in nodeMap
    requires forall p <- nodeMap.Keys :: PathAtMost(p, last)
    ensures nodeMap[last] in nodes && forall n <- nodes :: n.parent != nodeMap[last]
    ensures Pending(nodes - {nodeMap[last]}, was, tags, nodeMap - {last})
  {
    hide ParentsFirst, LinksRight, PathAtMost, Rooted;
    TreeIsRooted(nodes, root);
    LastIsLeaf(nodes, root, tags, nodeMap.Keys, nodeMap[last]);
    TagsDiffer(nodes, root);
    LessPending(nodes, was, tags, nodeMap, last);
  }

  lemma LessPending(nodes: set<TagNode>, was: set<TagNode>, tags: seq<Path>, nodeMap: map<Path, TagNode>, last: Path)
    requires Pending(nodes, was, tags, nodeMap) && last in nodeMap
    requires forall n <- nodes, m <- nodes :: n.tag == m.tag ==> n == m
    ensures Pending(nodes - {nodeMap[last]}, was, tags, nodeMap - {last})
  {
  }

  lemma ListedHasTags(nodes: set<TagNode>, tags: seq<Path>, nodeMap: map<Path, TagNode>)
    requires MapsAll(nodeMap, nodes) && forall t <- tags :: t in nodeMap
    ensures Listed(nodes, tags) <= nodes && forall n <- nodes :: n in Listed(nodes, tags) <==> n.tag in tags
    ensures forall t <- tags :: exists n <- Listed(nodes, tags) :: n.tag == t
  {
    forall t | t in tags
      ensures exists n <- Listed(nodes, tags) :: n.tag == t
    {
      assert nodeMap[t].tag == t && nodeMap[t] in Listed(nodes, tags);
    }
  }

  lemma MapsUnlisted(nodes: set<TagNode>, tags: seq<Path>, nodeMap: map<Path, TagNode>, r: map<Path, TagNode>)
    requires MapsAll(nodeMap, nodes) && r == map p | p in nodeMap && p !in tags :: nodeMap[p]
    ensures Pending(nodes, nodes, tags, r)
  {
  }

  /** The map without the tags of the list. */
  method Unlisted(tags: seq<Path>, nodeMap: map<Path, TagNode>) returns (r: map<Path, TagNode>)
    ensures r == map p | p in nodeMap && p !in tags :: nodeMap[p]
  {
    r := nodeMap;
    for k := 0 to |tags|
      invariant r == map p | p in nodeMap && p !in tags[..k] :: nodeMap[p]
    {
      assert tags[..k + 1] == tags[..k] + [tags[k]];
      r := r - {tags[k]};
    }
    assert tags[..|tags|] == tags;
  }

  lemma SubNodesAreBehind(children: seq<Child>)
    requires InShape(children)
    ensures forall c: Child :: c.SubNode? ==> (c in children <==> c in children[|Books(children)|..])
  {
    hide Books, InShape, PathLess;
    assert children == children[..|Books(children)|] + children[|Books(children)|..];
  }

  /** New books do not disturb the tag nodes. */
  lemma LinksAfterUpdate(was: seq<Child>, m: TagNode, nodes: set<TagNode>)
    requires InShape(was) && InShape(m.children)
    requires forall c <- was :: c.SubNode? ==> c.node in nodes && c.node.parent == m
    requires forall c <- nodes :: c.parent == m ==> SubNode(c) in was
    requires m.children[|Books(m.children)|..] == was[|Books(was)|..]
    ensures LinksRight(m, nodes)
  {
    hide InShape, Books, PathLess;
    SubNodesAreBehind(was);
    SubNodesAreBehind(m.children);
  }

  lemma HasParent(nodes: set<TagNode>, root: TagNode, node: TagNode)
    requires Rooted(nodes, root) && node in nodes
    ensures node.parent != null && (node.parent == root || node.parent in nodes)
  {
  }

  lemma NotDoneYet(tags: seq<Path>, k: nat)
    requires ParentsFirst(tags) && k < |tags|
    ensures tags[k] !in tags[..k]
  {
  }

  lemma TreeIsRooted(nodes: set<TagNode>, root: TagNode)
    requires IsTree(nodes, root)
    ensures Rooted(nodes, root)
  {
  }

  lemma TagsDiffer(nodes: set<TagNode>, root: TagNode)
    requires Rooted(nodes, root)
    ensures root !in nodes && forall n <- nodes, m <- nodes :: n.tag == m.tag ==> n == m
  {
  }

  lemma StartsUnchanged(before: map<TagNode, seq<BookId>>, books: Path -> seq<BookId>, file: Files)
    ensures BooksSo(before, [], before, books, file)
  {
  }

  lemma LinksMean(m: TagNode, nodes: set<TagNode>)
    requires LinksRight(m, nodes)
    ensures InShape(m.children)
    ensures forall c <- m.children :: c.SubNode? ==> c.node in nodes && c.node.parent == m
    ensures forall c <- nodes :: c.parent == m ==> SubNode(c) in m.children
  {
  }

  lemma NoLinks(node: TagNode, nodes: set<TagNode>)
    requires node.children == [] && forall n <- nodes :: n.parent != node
    ensures LinksRight(node, nodes)
  {
  }
}

/** The list of authors and its in-place update (LibraryByAuthorView.cpp, makeUpToDate). */
module AuthorViews {
  import opened Order
  import opened BookOrder
  import opened SeriesGroups
  import opened AuthorSubtrees

  // ---------- the order of authors ----------

  /** No author first, then by sort key and name. */
  predicate AuthorLess(a: Author, b: Author)
  {
    match (a, b)
    case (NoAuthor, _) => b != NoAuthor
    case (_, NoAuthor) => false
    case (Author(n, k), Author(m, l)) => if k == l then StrLess(n, m) else StrLess(k, l)
  }

  lemma AuthorTrichotomy(a: Author, b: Author)
    ensures AuthorLess(a, b) || AuthorLess(b, a) || a == b
    ensures !(AuthorLess(a, b) && AuthorLess(b, a)) && !AuthorLess(a, a)
  {
    if a != NoAuthor && b != NoAuthor {
      StrTrichotomy(a.sortKey, b.sortKey);
      StrTrichotomy(a.name, b.name);
    }
    if a != NoAuthor {
      StrTrichotomy(a.name, a.name);
    }
  }

  /** No author comes first; others by the first symbol in which their sort keys differ, or else their names. */
  lemma AuthorsDiverge(a: Author, b: Author, k: nat)
    requires a != NoAuthor
    ensures AuthorLess(NoAuthor, a) && !AuthorLess(a, NoAuthor)
    ensures b != NoAuthor && DifferAt(a.sortKey, b.sortKey, k) ==> (AuthorLess(a, b) <==> a.sortKey[k] < b.sortKey[k])
    ensures b != NoAuthor && a.sortKey < b.sortKey ==> AuthorLess(a, b) && !AuthorLess(b, a)
    ensures b != NoAuthor && a.sortKey == b.sortKey && DifferAt(a.name, b.name, k) ==>
      (AuthorLess(a, b) <==> a.name[k] < b.name[k])
  {
    hide StrLess;
    if b != NoAuthor {
      if DifferAt(a.sortKey, b.sortKey, k) {
        StringsDiverge(a.sortKey, b.sortKey, k);
      } else if a.sortKey < b.sortKey {
        StringPrefixFirst(a.sortKey, b.sortKey);
      } else if DifferAt(a.name, b.name, k) {
        StringsDiverge(a.name, b.name, k);
      }
    }
  }

  lemma AuthorTransitive(a: Author, b: Author, c: Author)
    requires AuthorLess(a, b) && AuthorLess(b, c)
    ensures AuthorLess(a, c)
  {
    if a != NoAuthor {
      StrTrichotomy(a.sortKey, b.sortKey);
      StrTrichotomy(b.sortKey, c.sortKey);
      if a.sortKey == b.sortKey && b.sortKey == c.sortKey {
        StrTransitive(a.name, b.name, c.name);
      } else if a.sortKey != b.sortKey && b.sortKey != c.sortKey {
        StrTransitive(a.sortKey, b.sortKey, c.sortKey);
        StrTrichotomy(a.sortKey, c.sortKey);
      }
    }
  }

  ghost predicate Ascending(authors: seq<Author>)
  {
    forall i, j :: 0 <= i < j < |authors| ==> AuthorLess(authors[i], authors[j])
  }

  // ---------- lists of nodes ----------

  ghost predicate Distinct(nodes: seq<AuthorNode>)
  {
    forall i, j :: 0 <= i < j < |nodes| ==> nodes[i] != nodes[j]
  }

  function AuthorsOf(nodes: seq<AuthorNode>): (r: seq<Author>)
  {
    seq(|nodes|, i requires 0 <= i < |nodes| => nodes[i].author)
  }

  /** The nodes that are not to be deleted. */
  ghost function Kept(nodes: seq<AuthorNode>, deleted: set<AuthorNode>): seq<AuthorNode>
  {
    if nodes == [] then []
    else
      var front := Kept(nodes[..|nodes| - 1], deleted);
      if nodes[|nodes| - 1] in deleted then front else front + [nodes[|nodes| - 1]]
  }

  lemma KeptLast(nodes: seq<AuthorNode>, node: AuthorNode, deleted: set<AuthorNode>)
    ensures Kept(nodes + [node], deleted) == Kept(nodes, deleted) + if node in deleted then [] else [node]
  {
    assert (nodes + [node])[..|nodes|] == nodes;
  }

  lemma {:induction false} KeptConcat(a: seq<AuthorNode>, b: seq<AuthorNode>, deleted: set<AuthorNode>)
    ensures Kept(a + b, deleted) == Kept(a, deleted) + Kept(b, deleted)
  {
    if b == [] {
      assert a + b == a;
    } else {
      hide Kept;
      var front, last := b[..|b| - 1], b[|b| - 1];
      assert b == front + [last] && a + b == a + front + [last];
      KeptConcat(a, front, deleted);
      KeptLast(a + front, last, deleted);
      KeptLast(front, last, deleted);
    }
  }

  lemma {:induction false} KeptAll(nodes: seq<AuthorNode>, deleted: set<AuthorNode>)
    requires forall n <- nodes :: n !in deleted
    ensures Kept(nodes, deleted) == nodes
  {
    if nodes != [] {
      KeptAll(nodes[..|nodes| - 1], deleted);
    }
  }

  lemma {:induction false} KeptNone(nodes: seq<AuthorNode>, deleted: set<AuthorNode>)
    requires forall n <- nodes :: n in deleted
    ensures Kept(nodes, deleted) == []
  {
    if nodes != [] {
      assert nodes[|nodes| - 1] in nodes;
      KeptNone(nodes[..|nodes| - 1], deleted);
    }
  }

  /** Deleting more nodes that do not occur changes nothing. */
  lemma {:induction false} KeptWider(nodes: seq<AuthorNode>, deleted: set<AuthorNode>, more: set<AuthorNode>)
    requires forall n <- nodes :: n !in more
    ensures Kept(nodes, deleted + more) == Kept(nodes, deleted)
  {
    if nodes != [] {
      assert nodes[|nodes| - 1] in nodes;
      KeptWider(nodes[..|nodes| - 1], deleted, more);
    }
  }

  /** What erasing the first occurrence of a node leaves. */
  function Erase(nodes: seq<AuthorNode>, node: AuthorNode): seq<AuthorNode>
  {
    if nodes == [] then [] else if nodes[0] == node then nodes[1..] else [nodes[0]] + Erase(nodes[1..], node)
  }

  lemma {:induction false} ErasedIsGone(nodes: seq<AuthorNode>, node: AuthorNode)
    requires Distinct(nodes)
    ensures Distinct(Erase(nodes, node)) && forall n :: n in Erase(nodes, node) <==> n in nodes && n != node
  {
    if nodes != [] && nodes[0] != node {
      var rest := Erase(nodes[1..], node);
      ErasedIsGone(nodes[1..], node);
      forall i, j | 0 <= i < j < |[nodes[0]] + rest|
        ensures ([nodes[0]] + rest)[i] != ([nodes[0]] + rest)[j]
      {
        assert ([nodes[0]] + rest)[j] == rest[j - 1] && rest[j - 1] in rest;
        if i > 0 {
          assert ([nodes[0]] + rest)[i] == rest[i - 1];
        }
      }
    }
  }

  lemma {:induction false} ErasedIsKept(nodes: seq<AuthorNode>, node: AuthorNode, deleted: set<AuthorNode>)
    requires Distinct(nodes) && node in deleted
    ensures Kept(Erase(nodes, node), deleted - {node}) == Kept(nodes, deleted)
  {
    if nodes != [] {
      hide Kept;
      var rest := nodes[1..];
      assert nodes == [nodes[0]] + rest;
      KeptConcat([nodes[0]], rest, deleted);
      if nodes[0] == node {
        KeptNone([nodes[0]], deleted);
        KeptWider(rest, deleted - {node}, {node});
        assert deleted - {node} + {node} == deleted;
      } else {
        ErasedIsKept(rest, node, deleted);
        KeptConcat([nodes[0]], Erase(rest, node), deleted - {node});
        SingleKept(nodes[0], deleted, node);
      }
    }
    else {
      KeptNone(nodes, deleted);
    }
  }

  lemma SingleKept(n: AuthorNode, deleted: set<AuthorNode>, node: AuthorNode)
    requires n != node
    ensures Kept([n], deleted) == Kept([n], deleted - {node})
  {
    assert [] + [n] == [n];
    KeptLast([], n, deleted);
    KeptLast([], n, deleted - {node});
  }

  // ---------- one pass over the old nodes and the new authors ----------

  /** In the middle of the pass: the root list starts with what has been dealt with and ends with the old nodes still to
      be looked at; `kept` is what will remain of the first part. */
  ghost predicate Merging(root: seq<AuthorNode>, old_: seq<AuthorNode>, nodeIt: nat, nodeCount: nat,
                          deleted: set<AuthorNode>, kept: seq<AuthorNode>)
  {
    && nodeIt <= |old_| && nodeCount <= |root| && root[nodeCount..] == old_[nodeIt..]
    && Distinct(root) && Distinct(old_) && (forall n <- deleted :: n in old_[..nodeIt])
    && kept == Kept(root[..nodeCount], deleted)
  }

  function Stretch(nodes: seq<AuthorNode>, from: nat, to: nat): set<AuthorNode>
    requires from <= to <= |nodes|
  {
    set n | n in nodes[from..to]
  }

  /** Old nodes that are passed over are marked for deletion. */
  lemma PassedOver(root: seq<AuthorNode>, old_: seq<AuthorNode>, nodeIt: nat, nodeCount: nat, next: nat,
                   deleted: set<AuthorNode>, kept: seq<AuthorNode>)
    requires Merging(root, old_, nodeIt, nodeCount, deleted, kept) && nodeIt <= next <= |old_|
    ensures Merging(root, old_, next, nodeCount + (next - nodeIt), deleted + Stretch(old_, nodeIt, next), kept)
  {
    hide Kept;
    var count := nodeCount + (next - nodeIt);
    var passed := Stretch(old_, nodeIt, next);
    assert root[nodeCount..][..next - nodeIt] == old_[nodeIt..next];
    assert root[..count] == root[..nodeCount] + old_[nodeIt..next];
    assert root[count..] == old_[next..];
    assert forall j :: 0 <= j < next - nodeIt ==> old_[nodeIt..next][j] == root[nodeCount + j];
    KeptWider(root[..nodeCount], deleted, passed);
    KeptNone(old_[nodeIt..next], deleted + passed);
    KeptConcat(root[..nodeCount], old_[nodeIt..next], deleted + passed);
    assert forall n :: n in passed ==> n in old_[..next];
  }

  /** An old node that stays. */
  lemma NodeStays(root: seq<AuthorNode>, old_: seq<AuthorNode>, nodeIt: nat, nodeCount: nat,
                  deleted: set<AuthorNode>, kept: seq<AuthorNode>)
    requires Merging(root, old_, nodeIt, nodeCount, deleted, kept) && nodeIt < |old_|
    ensures Merging(root, old_, nodeIt + 1, nodeCount + 1, deleted, kept + [old_[nodeIt]])
    ensures forall j :: nodeIt < j < |old_| ==> old_[j] != old_[nodeIt]
  {
    hide Kept;
    var node := old_[nodeIt];
    assert root[nodeCount..][0] == node;
    assert root[..nodeCount + 1] == root[..nodeCount] + [node];
    assert root[nodeCount + 1..] == root[nodeCount..][1..];
    KeptLast(root[..nodeCount], node, deleted);
    assert node !in old_[..nodeIt];
  }

  /** A new node goes between the two parts. */
  lemma NodeAdded(root: seq<AuthorNode>, old_: seq<AuthorNode>, nodeIt: nat, nodeCount: nat,
                  deleted: set<AuthorNode>, kept: seq<AuthorNode>, node: AuthorNode)
    requires Merging(root, old_, nodeIt, nodeCount, deleted, kept) && node !in root && node !in old_
    ensures Merging(root[..nodeCount] + [node] + root[nodeCount..], old_, nodeIt, nodeCount + 1, deleted, kept + [node])
  {
    hide Kept;
    var now := root[..nodeCount] + [node] + root[nodeCount..];
    assert now[..nodeCount + 1] == root[..nodeCount] + [node];
    assert now[nodeCount + 1..] == root[nodeCount..];
    KeptLast(root[..nodeCount], node, deleted);
    forall i, j | 0 <= i < j < |now|
      ensures now[i] != now[j]
    {
      var a, b := if i <= nodeCount then i else i - 1, if j <= nodeCount then j else j - 1;
      assert i != nodeCount ==> now[i] == root[a];
      assert j != nodeCount ==> now[j] == root[b];
    }
  }

  lemma {:induction false} KeptFromList(nodes: seq<AuthorNode>, deleted: set<AuthorNode>)
    ensures forall n :: n in Kept(nodes, deleted) <==> n in nodes && n !in deleted
  {
    if nodes != [] {
      assert nodes == nodes[..|nodes| - 1] + [nodes[|nodes| - 1]];
      KeptFromList(nodes[..|nodes| - 1], deleted);
    }
  }

  /** The nodes dealt with are not among those to come. */
  lemma KeptIsBehind(root: seq<AuthorNode>, old_: seq<AuthorNode>, nodeIt: nat, nodeCount: nat,
                     deleted: set<AuthorNode>, kept: seq<AuthorNode>)
    requires Merging(root, old_, nodeIt, nodeCount, deleted, kept)
    ensures nodeCount <= |root| && forall n <- kept :: n in root && n !in old_[nodeIt..]
  {
    hide Kept;
    KeptFromList(root[..nodeCount], deleted);
    assert forall n <- old_[nodeIt..] :: n in root[nodeCount..];
    forall n | n in kept
      ensures n !in root[nodeCount..]
    {
      var i :| 0 <= i < nodeCount && root[i] == n;
      assert forall j :: 0 <= j < |root[nodeCount..]| ==> root[nodeCount..][j] == root[nodeCount + j];
    }
  }

  lemma StartMerging(root: seq<AuthorNode>, authors: seq<Author>, books: Author -> seq<BookId>, info: Infos,
                     before: map<AuthorNode, seq<Child>>)
    requires Ascending(AuthorsOf(root)) && Ascending(authors) && before == Snapshot(root)
    ensures Merging(root, root, 0, 0, {}, []) && Dealt(root, 0, authors, 0, [])
    ensures Untouched(root[0..], before) && Settled([], before, books, info)
  {
    hide AuthorLess;
    AscendingIsDistinct(root);
  }

  lemma EndMerging(root: seq<AuthorNode>, old_: seq<AuthorNode>, nodeCount: nat,
                   deleted: set<AuthorNode>, kept: seq<AuthorNode>)
    requires Merging(root, old_, |old_|, nodeCount, deleted, kept)
    ensures Distinct(root) && kept == Kept(root, deleted) && forall n <- kept :: n in root
  {
    hide Kept;
    assert root[nodeCount..] == [];
    assert root[..nodeCount] == root;
    KeptFromList(root, deleted);
  }

  lemma InsertAt(root: seq<AuthorNode>, at: nat, node: AuthorNode)
    requires at <= |root|
    ensures at == |root| ==> root + [node] == root[..at] + [node] + root[at..]
  {
  }

  // ---------- what the order of authors gives ----------

  /** Old nodes up to `n` are below the author in hand or equal to nothing in the list; later ones are above. */
  lemma NotListed(authors: seq<Author>, k: nat, a: Author)
    requires Ascending(authors) && k < |authors| && (forall i :: 0 <= i < k ==> AuthorLess(authors[i], a))
    requires AuthorLess(a, authors[k])
    ensures a !in authors
  {
    hide AuthorLess;
    forall i | 0 <= i < |authors|
      ensures authors[i] != a
    {
      AuthorTrichotomy(a, authors[k]);
      AuthorTrichotomy(a, a);
      if i > k {
        AuthorTransitive(a, authors[k], authors[i]);
      }
    }
  }

  lemma AllBelow(authors: seq<Author>, a: Author)
    requires forall i :: 0 <= i < |authors| ==> AuthorLess(authors[i], a)
    ensures a !in authors
  {
    hide AuthorLess;
    AuthorTrichotomy(a, a);
  }

  lemma RestIsAbove(nodes: seq<AuthorNode>, n: nat, author: Author)
    requires Ascending(AuthorsOf(nodes)) && n <= |nodes|
    requires n < |nodes| ==> nodes[n].author == author || !AuthorLess(nodes[n].author, author)
    ensures forall j :: n < j < |nodes| ==> AuthorLess(author, nodes[j].author)
    ensures n < |nodes| && nodes[n].author != author ==> AuthorLess(author, nodes[n].author)
  {
    hide AuthorLess;
    var all := AuthorsOf(nodes);
    if n < |nodes| {
      AuthorTrichotomy(nodes[n].author, author);
      forall j | n < j < |nodes|
        ensures AuthorLess(author, nodes[j].author)
      {
        assert AuthorLess(all[n], all[j]);
        if nodes[n].author != author {
          AuthorTransitive(author, nodes[n].author, nodes[j].author);
        }
      }
    }
  }

  lemma AscendingIsDistinct(nodes: seq<AuthorNode>)
    requires Ascending(AuthorsOf(nodes))
    ensures Distinct(nodes)
  {
    hide AuthorLess;
    forall i, j | 0 <= i < j < |nodes|
      ensures nodes[i] != nodes[j]
    {
      assert AuthorLess(AuthorsOf(nodes)[i], AuthorsOf(nodes)[j]);
      AuthorTrichotomy(nodes[i].author, nodes[j].author);
    }
  }

  // ---------- what has been dealt with ----------

  /** The first `k` authors have their nodes; old nodes still to come are above them, and old nodes passed have stayed
      or have no author in the list. */
  ghost predicate Dealt(old_: seq<AuthorNode>, nodeIt: nat, authors: seq<Author>, k: nat, kept: seq<AuthorNode>)
  {
    && nodeIt <= |old_| && k <= |authors| && AuthorsOf(kept) == authors[..k]
    && Ascending(AuthorsOf(old_)) && Ascending(authors)
    && (forall i, j :: 0 <= i < k && nodeIt <= j < |old_| ==> AuthorLess(authors[i], old_[j].author))
    && (forall j :: 0 <= j < nodeIt ==> old_[j] in kept || old_[j].author !in authors)
  }

  lemma DealtPassing(old_: seq<AuthorNode>, nodeIt: nat, next: nat, authors: seq<Author>, k: nat, kept: seq<AuthorNode>)
    requires Dealt(old_, nodeIt, authors, k, kept) && nodeIt <= next <= |old_| && k < |authors|
    requires forall j :: nodeIt <= j < next ==> AuthorLess(old_[j].author, authors[k])
    ensures Dealt(old_, next, authors, k, kept)
  {
    hide AuthorLess, Ascending;
    forall j | nodeIt <= j < next
      ensures old_[j].author !in authors
    {
      NotListed(authors, k, old_[j].author);
    }
  }

  lemma DealtStay(old_: seq<AuthorNode>, nodeIt: nat, authors: seq<Author>, k: nat, kept: seq<AuthorNode>)
    requires Dealt(old_, nodeIt, authors, k, kept) && nodeIt < |old_| && k < |authors|
    requires old_[nodeIt].author == authors[k]
    ensures Dealt(old_, nodeIt + 1, authors, k + 1, kept + [old_[nodeIt]])
  {
    hide AuthorLess, Ascending;
    RestIsAbove(old_, nodeIt, authors[k]);
  }

  lemma DealtNew(old_: seq<AuthorNode>, nodeIt: nat, authors: seq<Author>, k: nat, kept: seq<AuthorNode>,
                 node: AuthorNode)
    requires Dealt(old_, nodeIt, authors, k, kept) && k < |authors| && node.author == authors[k]
    requires nodeIt < |old_| ==> old_[nodeIt].author != authors[k] && !AuthorLess(old_[nodeIt].author, authors[k])
    ensures Dealt(old_, nodeIt, authors, k + 1, kept + [node])
  {
    hide AuthorLess, Ascending;
    RestIsAbove(old_, nodeIt, authors[k]);
  }

  lemma EndDealt(old_: seq<AuthorNode>, nodeIt: nat, authors: seq<Author>, kept: seq<AuthorNode>)
    requires Dealt(old_, nodeIt, authors, |authors|, kept)
    ensures AuthorsOf(kept) == authors && Ascending(authors)
    ensures forall n <- old_ :: n in kept <==> n.author in authors
  {
    hide AuthorLess, Ascending;
    assert authors[..|authors|] == authors;
    forall n | n in old_
      ensures n in kept <==> n.author in authors
    {
      var j :| 0 <= j < |old_| && old_[j] == n;
      if j >= nodeIt {
        AllBelow(authors, n.author);
      }
      if n in kept {
        var i :| 0 <= i < |kept| && kept[i] == n;
        assert AuthorsOf(kept)[i] == n.author;
      }
    }
  }

  predicate OldOrNew(kept: seq<AuthorNode>, old_: seq<AuthorNode>, created: set<AuthorNode>)
  {
    forall n <- kept :: n in old_ || n in created
  }

  ghost function Snapshot(nodes: seq<AuthorNode>): map<AuthorNode, seq<Child>>
    reads nodes
  {
    map n | n in nodes :: n.children
  }

  ghost predicate Untouched(nodes: seq<AuthorNode>, before: map<AuthorNode, seq<Child>>)
    reads nodes
  {
    forall n <- nodes :: n in before && n.children == before[n]
  }

  lemma FewerUntouched(nodes: seq<AuthorNode>, from: nat, to: nat, before: map<AuthorNode, seq<Child>>)
    requires from <= to <= |nodes| && Untouched(nodes[from..], before)
    ensures Untouched(nodes[to..], before)
    ensures from < |nodes| ==> nodes[from] in before && nodes[from].children == before[nodes[from]]
  {
    assert nodes[to..] == nodes[from..][to - from..];
    if from < |nodes| {
      assert nodes[from] == nodes[from..][0];
    }
  }

  /** A subtree is left as it is when the check accepts it; otherwise it is built anew. */
  function Refreshed(children: seq<Child>, books: seq<BookId>, info: Infos): seq<Child>
  {
    if UpToDate(children, books, info) then children else Grouped(books, info)
  }

  /** What the children of a node have to be: kept as they were when the check accepts them, otherwise rebuilt. */
  ghost function Expected(node: AuthorNode, before: map<AuthorNode, seq<Child>>, books: Author -> seq<BookId>,
                          info: Infos): seq<Child>
  {
    if node in before then Refreshed(before[node], books(node.author), info) else Grouped(books(node.author), info)
  }

  ghost predicate Settled(kept: seq<AuthorNode>, before: map<AuthorNode, seq<Child>>, books: Author -> seq<BookId>,
                          info: Infos)
    reads kept
  {
    forall n <- kept :: n.children == Expected(n, before, books, info)
  }

  lemma OldOneSettled(kept: seq<AuthorNode>, node: AuthorNode, before: map<AuthorNode, seq<Child>>,
                      books: Author -> seq<BookId>, info: Infos)
    requires Settled(kept, before, books, info) && node in before
    requires node.children == Refreshed(before[node], books(node.author), info)
    ensures Settled(kept + [node], before, books, info)
  {
    hide UpToDate, Grouped;
  }

  lemma NewOneSettled(kept: seq<AuthorNode>, node: AuthorNode, before: map<AuthorNode, seq<Child>>,
                      books: Author -> seq<BookId>, info: Infos)
    requires Settled(kept, before, books, info) && node !in before && node.children == Grouped(books(node.author), info)
    ensures Settled(kept + [node], before, books, info)
  {
    hide UpToDate, Grouped;
  }

  lemma SettledMeans(kept: seq<AuthorNode>, before: map<AuthorNode, seq<Child>>, books: Author -> seq<BookId>,
                     info: Infos)
    requires Settled(kept, before, books, info)
    ensures forall n <- kept :: n in before ==> n.children == Refreshed(before[n], books(n.author), info)
    ensures forall n <- kept :: n !in before ==> n.children == Grouped(books(n.author), info)
    ensures forall n <- kept :: Flatten(n.children) == books(n.author)
  {
    hide Grouped, Flatten;
    forall n | n in kept
      ensures Flatten(n.children) == books(n.author)
    {
      GroupedFlattens(books(n.author), info);
    }
  }

  // ---------- the view ----------

  /** The first node, from `k` on, whose author does not come before `author`. */
  method SkipSmaller(nodes: seq<AuthorNode>, k: nat, author: Author) returns (n: nat)
    requires k <= |nodes|
    ensures k <= n <= |nodes|
    ensures forall j :: k <= j < n ==> nodes[j].author != author && AuthorLess(nodes[j].author, author)
    ensures n < |nodes| ==> nodes[n].author == author || !AuthorLess(nodes[n].author, author)
  {
    n := k;
    while n < |nodes| && nodes[n].author != author && AuthorLess(nodes[n].author, author)
      invariant k <= n <= |nodes|
      invariant forall j :: k <= j < n ==> nodes[j].author != author && AuthorLess(nodes[j].author, author)
    {
      n := n + 1;
    }
  }

  class AuthorView {
    /** The children of the root node. */
    var root: seq<AuthorNode>

    constructor ()
      ensures root == []
    {
      root := [];
    }

    ghost predicate Valid()
      reads this
    {
      Ascending(AuthorsOf(root))
    }

    /** `AuthorNode` inserts itself into its parent's children. */
    method AddAuthorSubtree(author: Author, atPosition: nat, books: seq<BookId>, info: Infos) returns (node: AuthorNode)
      modifies this
      ensures fresh(node) && node.author == author && node.children == Grouped(books, info)
      ensures root == if atPosition >= |old(root)| then old(root) + [node]
                      else old(root)[..atPosition] + [node] + old(root)[atPosition..]
    {
      node := new AuthorNode(author);
      root := if atPosition >= |root| then root + [node] else root[..atPosition] + [node] + root[atPosition..];
      node.FillAuthorSubtree(books, info);
    }

    method MakeUpToDate(authors: seq<Author>, books: Author -> seq<BookId>, info: Infos)
      requires Valid() && Ascending(authors)
      modifies this, root
      ensures Valid() && AuthorsOf(root) == authors
      // a node whose author stays is the same node, left alone when the check accepts it
      ensures forall n <- old(root) :: n in root <==> n.author in authors
      ensures forall n <- old(root) :: n in root ==> n.children == Refreshed(old(n.children), books(n.author), info)
      ensures forall n <- root :: n !in old(root) ==> fresh(n) && n.children == Grouped(books(n.author), info)
      ensures forall n <- root :: Flatten(n.children) == books(n.author)
    {
      hide Grouped, Flatten, UpToDate, AuthorLess, Kept, Distinct, Settled, Refreshed, AuthorsOf;
      ghost var before := Snapshot(root);
      var nodesToDelete, kept := Merge(authors, books, info, before);
      DeleteNodes(nodesToDelete);
      SettledMeans(kept, before, books, info);
    }

    /** The pass over the authors and the old nodes; what is to be deleted is only collected. */
    method Merge(authors: seq<Author>, books: Author -> seq<BookId>, info: Infos,
                 ghost before: map<AuthorNode, seq<Child>>)
      returns (nodesToDelete: set<AuthorNode>, ghost kept: seq<AuthorNode>)
      requires Valid() && Ascending(authors) && before == Snapshot(root)
      modifies this, root
      ensures Distinct(root) && kept == Kept(root, nodesToDelete)
      ensures AuthorsOf(kept) == authors && forall n <- old(root) :: n in kept <==> n.author in authors
      ensures Settled(kept, before, books, info) && forall n <- kept :: n in old(root) || fresh(n)
    {
      hide Grouped, Flatten, UpToDate, AuthorLess, Kept, Merging, Distinct, Dealt, Settled, Untouched, Ascending,
        AuthorsOf,
           Stretch, Refreshed;
      ghost var was := root;
      var rootChildren := root;
      nodesToDelete := {};
      var nodeIt: nat, nodeCount: nat := 0, 0;
      kept := [];
      ghost var created: set<AuthorNode> := {};
      StartMerging(root, authors, books, info, before);
      for k := 0 to |authors|
        invariant rootChildren == was && nodeIt <= |was|
        invariant Merging(root, was, nodeIt, nodeCount, nodesToDelete, kept)
        invariant Dealt(was, nodeIt, authors, k, kept)
        invariant fresh(created) && OldOrNew(kept, was, created)
        invariant Untouched(was[nodeIt..], before)
        invariant Settled(kept, before, books, info)
      {
        var next := SkipSmaller(rootChildren, nodeIt, authors[k]);
        PassedOver(root, was, nodeIt, nodeCount, next, nodesToDelete, kept);
        DealtPassing(was, nodeIt, next, authors, k, kept);
        FewerUntouched(was, nodeIt, next, before);
        nodesToDelete := nodesToDelete + Stretch(rootChildren, nodeIt, next);
        nodeCount := nodeCount + (next - nodeIt);
        nodeIt := next;
        KeptIsBehind(root, was, nodeIt, nodeCount, nodesToDelete, kept);
        if nodeIt < |rootChildren| && rootChildren[nodeIt].author == authors[k] {
          var node := rootChildren[nodeIt];
          assert node in was[nodeIt..];
          NodeStays(root, was, nodeIt, nodeCount, nodesToDelete, kept);
          DealtStay(was, nodeIt, authors, k, kept);
          FewerUntouched(was, nodeIt, nodeIt + 1, before);
          RefreshNode(node, books(authors[k]), info);
          OldOneSettled(kept, node, before, books, info);
          kept := kept + [node];
          nodeIt := nodeIt + 1;
        } else {
          ghost var list := root;
          var node := AddAuthorSubtree(authors[k], nodeCount, books(authors[k]), info);
          InsertAt(list, nodeCount, node);
          NodeAdded(list, was, nodeIt, nodeCount, nodesToDelete, kept, node);
          DealtNew(was, nodeIt, authors, k, kept, node);
          NewOneSettled(kept, node, before, books, info);
          kept, created := kept + [node], created + {node};
        }
        nodeCount := nodeCount + 1;
      }
      PassedOver(root, was, nodeIt, nodeCount, |was|, nodesToDelete, kept);
      nodesToDelete := nodesToDelete + Stretch(rootChildren, nodeIt, |rootChildren|);
      EndMerging(root, was, nodeCount + (|was| - nodeIt), nodesToDelete, kept);
      EndDealt(was, nodeIt, authors, kept);
    }

    method RefreshNode(node: AuthorNode, books: seq<BookId>, info: Infos)
      modifies node
      ensures node.children == Refreshed(old(node.children), books, info)
    {
      var ok := node.IsSubtreeUpToDate(books, info);
      if !ok {
        node.UpdateAuthorSubtree(books, info);
      }
    }

    method DeleteNodes(nodesToDelete: set<AuthorNode>)
      requires Distinct(root)
      modifies this
      ensures root == Kept(old(root), nodesToDelete)
    {
      var left := nodesToDelete;
      while left != {}
        invariant Distinct(root) && Kept(root, left) == Kept(old(root), nodesToDelete)
      {
        var node :| node in left;
        ErasedIsGone(root, node);
        ErasedIsKept(root, node, left);
        root := Erase(root, node);
        left := left - {node};
      }
      KeptAll(root, {});
    }
  }
}

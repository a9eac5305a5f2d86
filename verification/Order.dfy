/** The order of `std::string`, and the order it induces on name paths. */
module Order {

  /** A name path from a root tag down; the empty path stands for "no tag". */
  type Path = seq<string>

  /** Strict lexicographic order; a proper prefix comes first. */
  predicate StrLess(a: string, b: string)
  {
    b != [] && (a == [] || a[0] < b[0] || (a[0] == b[0] && StrLess(a[1..], b[1..])))
  }

  lemma {:induction false} StrTrichotomy(a: string, b: string)
    ensures StrLess(a, b) || StrLess(b, a) || a == b
    ensures !(StrLess(a, b) && StrLess(b, a)) && !(StrLess(a, b) && a == b)
  {
    if a != [] && b != [] && a[0] == b[0] {
      StrTrichotomy(a[1..], b[1..]);
      assert a == [a[0]] + a[1..] && b == [b[0]] + b[1..];
    }
  }

  lemma {:induction false} StrTransitive(a: string, b: string, c: string)
    requires StrLess(a, b) && StrLess(b, c)
    ensures StrLess(a, c)
  {
    if a != [] && a[0] == b[0] && b[0] == c[0] {
      StrTransitive(a[1..], b[1..], c[1..]);
    }
  }

  /** The first symbol in which two strings differ. */
  predicate DifferAt(a: string, b: string, k: nat)
  {
    k < |a| && k < |b| && a[..k] == b[..k] && a[k] != b[k]
  }

  /** Two strings are ordered by the first symbol in which they differ. */
  lemma {:induction false} StringsDiverge(a: string, b: string, k: nat)
    requires DifferAt(a, b, k)
    ensures StrLess(a, b) <==> a[k] < b[k]
  {
    if k > 0 {
      assert a[0] == a[..k][0] == b[..k][0] == b[0];
      assert a[1..][..k - 1] == a[..k][1..] == b[..k][1..] == b[1..][..k - 1];
      StringsDiverge(a[1..], b[1..], k - 1);
    }
  }

  /** A proper prefix comes first. */
  lemma {:induction false} StringPrefixFirst(a: string, b: string)
    requires a < b
    ensures StrLess(a, b) && !StrLess(b, a)
  {
    if a != [] {
      assert a[0] == b[0] && a[1..] < b[1..];
      StringPrefixFirst(a[1..], b[1..]);
    }
  }

  /** The same order one level up, on sequences of names. */
  predicate PathLess(p: Path, q: Path)
  {
    q != [] && (p == [] || StrLess(p[0], q[0]) || (p[0] == q[0] && PathLess(p[1..], q[1..])))
  }

  predicate PathAtMost(p: Path, q: Path) { p == q || PathLess(p, q) }

  lemma {:induction false} PathTrichotomy(p: Path, q: Path)
    ensures PathLess(p, q) || PathLess(q, p) || p == q
    ensures !(PathLess(p, q) && PathLess(q, p)) && !(PathLess(p, q) && p == q)
  {
    if p != [] && q != [] {
      StrTrichotomy(p[0], q[0]);
      if p[0] == q[0] {
        PathTrichotomy(p[1..], q[1..]);
        assert p == [p[0]] + p[1..] && q == [q[0]] + q[1..];
      }
    }
  }

  lemma {:induction false} PathTransitive(p: Path, q: Path, r: Path)
    requires PathLess(p, q) && PathLess(q, r)
    ensures PathLess(p, r)
  {
    if p != [] {
      StrTrichotomy(p[0], q[0]);
      StrTrichotomy(q[0], r[0]);
      if p[0] == q[0] && q[0] == r[0] {
        PathTransitive(p[1..], q[1..], r[1..]);
      } else if p[0] != q[0] && q[0] != r[0] {
        StrTransitive(p[0], q[0], r[0]);
      }
    }
  }

  /** Two paths are ordered by the first name in which they differ. */
  lemma {:induction false} PathsDiverge(p: Path, q: Path, k: nat)
    requires k < |p| && k < |q| && p[..k] == q[..k] && p[k] != q[k]
    ensures PathLess(p, q) == StrLess(p[k], q[k])
  {
    if k == 0 {
      StrTrichotomy(p[0], q[0]);
    } else {
      assert p[0] == p[..k][0] == q[..k][0] == q[0];
      assert p[1..][..k - 1] == p[..k][1..] == q[..k][1..] == q[1..][..k - 1];
      StrTrichotomy(p[0], q[0]);
      PathsDiverge(p[1..], q[1..], k - 1);
    }
  }

  lemma {:induction false} PrefixFirst(p: Path, q: Path)
    requires p < q
    ensures PathLess(p, q) && !PathLess(q, p)
  {
    if p != [] {
      assert p[0] == q[0] && p[1..] < q[1..];
      PrefixFirst(p[1..], q[1..]);
      StrTrichotomy(p[0], q[0]);
    }
  }

  /** Everything between a path and one of its extensions extends the path. */
  lemma {:induction false} PrefixInterval(p: Path, u: Path, d: Path)
    requires p <= d && PathAtMost(p, u) && PathAtMost(u, d)
    ensures p <= u
  {
    if p != [] {
      assert u != [];
      StrTrichotomy(p[0], u[0]);
      StrTrichotomy(u[0], d[0]);
      assert p[0] == d[0];
      assert p[0] == u[0] == d[0];
      assert p[1..] <= d[1..];
      PrefixInterval(p[1..], u[1..], d[1..]);
      assert p == [p[0]] + p[1..] && u == [u[0]] + u[1..];
    }
  }

  /** When neither path extends the other, any extensions of them are ordered as they are. */
  lemma {:induction false} ExtensionsOrdered(p: Path, q: Path, p': Path, q': Path)
    requires p <= p' && q <= q' && !(p <= q) && !(q <= p)
    ensures PathLess(p, q) == PathLess(p', q')
  {
    assert p != [] && q != [];
    assert p[0] == p'[0] && q[0] == q'[0];
    StrTrichotomy(p[0], q[0]);
    if p[0] == q[0] {
      assert p[1..] <= p'[1..] && q[1..] <= q'[1..];
      TailsApart(p, q);
      ExtensionsOrdered(p[1..], q[1..], p'[1..], q'[1..]);
    }
  }

  lemma TailsApart(p: Path, q: Path)
    requires p != [] && q != [] && p[0] == q[0] && !(p <= q) && !(q <= p)
    ensures !(p[1..] <= q[1..]) && !(q[1..] <= p[1..])
  {
    assert p == [p[0]] + p[1..] && q == [q[0]] + q[1..];
  }
}

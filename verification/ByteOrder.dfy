/** The order in which a bbolt cursor visits keys.
    A key is a string of code points; UTF-8 preserves their order (Base64.Utf8Order) and
    their prefixes, so the lexicographic order below is the byte order of the stored keys. */
module ByteOrder {
  const NUL: string := "\0"

  /** a comes strictly before b in lexicographic order. */
  predicate Before(a: string, b: string) {
    b != [] && (a == [] || a[0] < b[0] || (a[0] == b[0] && Before(a[1..], b[1..])))
  }

  predicate HasNul(s: string) {
    '\0' in s
  }

  lemma {:induction false} BeforeIrreflexive(a: string)
    ensures !Before(a, a)
  {
    if a != [] { BeforeIrreflexive(a[1..]); }
  }

  lemma {:induction false} BeforeTransitive(a: string, b: string, c: string)
    requires Before(a, b) && Before(b, c)
    ensures Before(a, c)
  {
    if a != [] && a[0] == b[0] == c[0] {
      BeforeTransitive(a[1..], b[1..], c[1..]);
    }
  }

  lemma {:induction false} BeforeTotal(a: string, b: string)
    ensures a == b || Before(a, b) || Before(b, a)
  {
    if a != [] && b != [] && a[0] == b[0] {
      BeforeTotal(a[1..], b[1..]);
      assert a == [a[0]] + a[1..] && b == [b[0]] + b[1..];
    }
  }

  lemma BeforeAsymmetric(a: string, b: string)
    requires Before(a, b)
    ensures !Before(b, a) && a != b
  {
    BeforeIrreflexive(a);
    if Before(b, a) { BeforeTransitive(a, b, a); }
  }

  /** A common prefix does not matter. */
  lemma {:induction false} BeforePrefix(p: string, a: string, b: string)
    ensures Before(p + a, p + b) <==> Before(a, b)
  {
    if p == [] {
      assert p + a == a && p + b == b;
    } else {
      assert (p + a)[1..] == p[1..] + a && (p + b)[1..] == p[1..] + b;
      BeforePrefix(p[1..], a, b);
    }
  }

  /** NUL-joined components sort like pairs: this is what makes a composite key
      visit (value, id) in tuple order. */
  lemma {:induction false} BeforeJoined(v: string, x: string, w: string, y: string)
    requires !HasNul(v) && !HasNul(w)
    ensures Before(v + NUL + x, w + NUL + y) <==> (Before(v, w) || (v == w && Before(x, y)))
    ensures v + NUL + x == w + NUL + y <==> (v == w && x == y)
  {
    var l, r := v + NUL + x, w + NUL + y;
    if v == [] && w == [] {
      assert l[1..] == x && r[1..] == y;
    } else if v == [] || w == [] {
      assert l[0] != r[0];
    } else {
      assert l[1..] == v[1..] + NUL + x && r[1..] == w[1..] + NUL + y;
      assert v == [v[0]] + v[1..] && w == [w[0]] + w[1..];
      BeforeJoined(v[1..], x, w[1..], y);
      assert l == [l[0]] + l[1..] && r == [r[0]] + r[1..];
    }
  }

  /** Keys that carry a prefix are contiguous in key order. */
  lemma {:induction false} PrefixContiguous(p: string, a: string, b: string, c: string)
    requires p <= a && p <= c
    requires a == b || Before(a, b)
    requires b == c || Before(b, c)
    ensures p <= b
  {
    if p != [] && a != b && b != c {
      assert b != [] && b[0] == p[0];
      PrefixContiguous(p[1..], a[1..], b[1..], c[1..]);
      assert p == [p[0]] + p[1..] && b == [b[0]] + b[1..];
    }
  }

  lemma PrefixNotAfter(p: string, a: string)
    requires p <= a
    ensures p == a || Before(p, a)
  {
    assert a == p + a[|p|..];
    if p != a {
      BeforePrefix(p, [], a[|p|..]);
      assert p + [] == p;
    }
  }

  // ---- sorted enumeration of a key set ----

  ghost predicate Sorted(s: seq<string>) {
    forall i, j :: 0 <= i < j < |s| ==> Before(s[i], s[j])
  }

  predicate IsLeast(k: string, ks: set<string>) {
    k in ks && forall j <- ks :: j == k || Before(k, j)
  }

  lemma {:induction false} LeastExists(ks: set<string>)
    requires ks != {}
    ensures exists k :: IsLeast(k, ks)
  {
    var k :| k in ks;
    if ks == {k} {
      assert IsLeast(k, ks);
    } else {
      LeastExists(ks - {k});
      var m :| IsLeast(m, ks - {k});
      BeforeTotal(k, m);
      if Before(k, m) {
        forall j | j in ks && j != k ensures Before(k, j) {
          if j != m { BeforeTransitive(k, m, j); }
        }
        assert IsLeast(k, ks);
      } else {
        assert IsLeast(m, ks);
      }
    }
  }

  lemma LeastUnique(k: string, m: string, ks: set<string>)
    requires IsLeast(k, ks) && IsLeast(m, ks)
    ensures k == m
  {
    if k != m { BeforeAsymmetric(k, m); }
  }

  function Least(ks: set<string>): (k: string)
    requires ks != {}
    ensures IsLeast(k, ks)
  {
    LeastExists(ks);
    assert forall k, m | IsLeast(k, ks) && IsLeast(m, ks) :: k == m by {
      forall k, m | IsLeast(k, ks) && IsLeast(m, ks) ensures k == m { LeastUnique(k, m, ks); }
    }
    var k :| k in ks && IsLeast(k, ks);
    k
  }

  /** All keys of a bucket in cursor order. */
  function Ascending(ks: set<string>): (s: seq<string>)
    ensures forall k :: k in s <==> k in ks
    ensures Sorted(s)
  {
    if ks == {} then [] else
      var k := Least(ks);
      [k] + Ascending(ks - {k})
  }

  /** The keys a cursor visits from Seek(start) on. */
  function SeekFrom(ks: set<string>, start: string): (s: seq<string>)
    ensures forall k :: k in s <==> k in ks && !Before(k, start)
    ensures Sorted(s)
  {
    Ascending(set k | k in ks && !Before(k, start))
  }

  /** A cursor that does not land on a prefix proves no key carries it. */
  lemma NothingUnderPrefix(ks: set<string>, prefix: string)
    requires var s := SeekFrom(ks, prefix); s == [] || !(prefix <= s[0])
    ensures forall k <- ks :: !(prefix <= k)
  {
    var s := SeekFrom(ks, prefix);
    forall k | k in ks ensures !(prefix <= k) {
      if prefix <= k {
        PrefixNotAfter(prefix, k);
        if Before(k, prefix) { BeforeAsymmetric(k, prefix); }
        assert k in s && s[0] in s;
        BeforeTotal(prefix, s[0]);
        var i :| 0 <= i < |s| && s[i] == k;
        PrefixContiguous(prefix, prefix, s[0], k);
      }
    }
  }

  lemma HasElement(s: seq<string>)
    ensures s != [] ==> exists k :: k in s
  {
    if s != [] { assert s[0] in s; }
  }

  /** A sorted sequence is determined by its elements. */
  lemma {:induction false} SortedUnique(s: seq<string>, t: seq<string>)
    requires Sorted(s) && Sorted(t)
    requires forall k :: k in s <==> k in t
    ensures s == t
  {
    HasElement(s);
    HasElement(t);
    if s != [] {
      assert s[0] in t && t[0] in s;
      if s[0] != t[0] {
        BeforeAsymmetric(s[0], t[0]);
      }
      forall k ensures k in s[1..] <==> k in t[1..] {
        BeforeIrreflexive(s[0]);
        assert s == [s[0]] + s[1..] && t == [t[0]] + t[1..];
        if k in s[1..] { assert k in s; assert k != s[0]; }
        if k in t[1..] { assert k in t; assert k != t[0]; }
      }
      SortedUnique(s[1..], t[1..]);
      assert s == [s[0]] + s[1..] && t == [t[0]] + t[1..];
    }
  }

  /** How many leading elements carry the prefix. */
  function PrefixRun(s: seq<string>, prefix: string): (n: nat)
    ensures n <= |s| && (n < |s| ==> !(prefix <= s[n]))
    ensures forall i :: 0 <= i < n ==> prefix <= s[i]
  {
    if s == [] || !(prefix <= s[0]) then 0 else 1 + PrefixRun(s[1..], prefix)
  }

  /** A scan that stops at the first key without the prefix has visited every key
      with it that is not before the start, if the start or the first key carries it. */
  lemma ScanCovers(ks: set<string>, start: string, prefix: string, n: nat, k: string)
    requires var s := SeekFrom(ks, start);
             && n <= |s| && (n < |s| ==> !(prefix <= s[n]))
             && (prefix <= start || (s != [] && prefix <= s[0]))
    requires k in ks && prefix <= k && !Before(k, start)
    ensures k in SeekFrom(ks, start)[..n]
  {
    hide SeekFrom;
    var s := SeekFrom(ks, start);
    var j :| 0 <= j < |s| && s[j] == k;
    if j >= n {
      assert s[n] in s;
      BeforeTotal(start, s[n]);
      PrefixContiguous(prefix, if prefix <= start then start else s[0], s[n], k);
    }
    assert s[..n][j] == k;
  }
}

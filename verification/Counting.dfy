/** Sizes of finite sets of sequences. */
module Counting {
  import opened NumberTheory
  import Gf256

  ghost predicate Injective<T, U>(f: map<T, U>) {
    forall x, y :: x in f && y in f && f[x] == f[y] ==> x == y
  }

  /** An injective map has as many values as keys. */
  lemma {:induction false} SameSize<T, U>(f: map<T, U>)
    requires Injective(f)
    ensures |f.Keys| == |f.Values|
    decreases |f|
  {
    if f.Keys != {} {
      var x :| x in f.Keys;
      var g := f - {x};
      assert g.Keys == f.Keys - {x};
      forall u | u in f.Values && u != f[x] ensures u in g.Values {
        var y :| y in f.Keys && f[y] == u;
        assert y in g && g[y] == u;
      }
      forall u | u in g.Values ensures u in f.Values && u != f[x] {
        var y :| y in g.Keys && g[y] == u;
      }
      assert g.Values == f.Values - {f[x]};
      SameSize(g);
    }
  }

  ghost function Prefixed<T(!new)>(x: T, ls: set<seq<T>>): set<seq<T>> {
    set l | l in ls :: [x] + l
  }

  ghost function PrefixedByAny<T(!new)>(s: set<T>, ls: set<seq<T>>): set<seq<T>> {
    set x, l | x in s && l in ls :: [x] + l
  }

  /** All sequences of n members of s. */
  ghost function Lists<T(!new)>(s: set<T>, n: nat): set<seq<T>> {
    if n == 0 then {[]} else PrefixedByAny(s, Lists(s, n - 1))
  }

  lemma PrefixedSize<T(!new)>(x: T, ls: set<seq<T>>)
    ensures |Prefixed(x, ls)| == |ls|
  {
    var f := map l | l in ls :: [x] + l;
    assert f.Keys == ls;
    forall l | l in ls ensures [x] + l in f.Values {
      assert f[l] == [x] + l;
    }
    assert f.Values == Prefixed(x, ls);
    forall l, m | l in f && m in f && f[l] == f[m] ensures l == m {
      assert l == ([x] + l)[1..] == ([x] + m)[1..] == m;
    }
    SameSize(f);
  }

  lemma PrefixedSplit<T(!new)>(s: set<T>, x: T, ls: set<seq<T>>)
    requires x in s
    ensures PrefixedByAny(s, ls) == Prefixed(x, ls) + PrefixedByAny(s - {x}, ls)
    ensures Prefixed(x, ls) !! PrefixedByAny(s - {x}, ls)
  {
    var a, b := Prefixed(x, ls), PrefixedByAny(s - {x}, ls);
    forall l | l in PrefixedByAny(s, ls) ensures l in a + b {
      var y, m :| y in s && m in ls && l == [y] + m;
      if y != x {
        assert y in s - {x};
      }
    }
    forall l | l in b ensures l !in a {
      assert l[0] != x;
    }
  }

  lemma PrefixedOneMore<T(!new)>(s: set<T>, x: T, ls: set<seq<T>>)
    requires x in s
    ensures |s - {x}| == |s| - 1
    ensures |PrefixedByAny(s, ls)| == |ls| + |PrefixedByAny(s - {x}, ls)|
  {
    hide PrefixedByAny, Prefixed;
    PrefixedSplit(s, x, ls);
    PrefixedSize(x, ls);
  }

  lemma {:induction false} PrefixedByAnySize<T(!new)>(s: set<T>, ls: set<seq<T>>)
    ensures |PrefixedByAny(s, ls)| == |s| * |ls|
    decreases |s|
  {
    if s == {} {
      assert PrefixedByAny(s, ls) == {};
    } else {
      var x :| x in s;
      PrefixedOneMore(s, x, ls);
      PrefixedByAnySize(s - {x}, ls);
      OneTimesMore(|s|, |ls|);
    }
  }

  lemma OneTimesMore(n: int, m: int)
    ensures n * m == m + (n - 1) * m
  {}

  lemma {:induction false} ListsSize<T(!new)>(s: set<T>, n: nat)
    ensures |Lists(s, n)| == Pow(|s|, n)
  {
    if n > 0 {
      ListsSize(s, n - 1);
      PrefixedByAnySize(s, Lists(s, n - 1));
    }
  }

  lemma {:induction false} ListsMembers<T(!new)>(s: set<T>, n: nat, l: seq<T>)
    ensures l in Lists(s, n) <==> |l| == n && forall k :: 0 <= k < |l| ==> l[k] in s
  {
    if n > 0 {
      if |l| == n {
        ListsMembers(s, n - 1, l[1..]);
        assert l == [l[0]] + l[1..];
      }
      if l in Lists(s, n) {
        var x, m :| x in s && m in Lists(s, n - 1) && l == [x] + m;
        ListsMembers(s, n - 1, m);
      }
    }
  }

  // ---------- Bytes ----------

  lemma ByteAsInt(b: bv8)
    ensures 0 <= b as int < 256 && (b as int) as bv8 == b
  {}

  ghost function BytesBelow(n: nat): set<bv8>
    requires n <= 256
  {
    if n == 0 then {} else BytesBelow(n - 1) + {(n - 1) as bv8}
  }

  lemma {:induction false} BytesBelowFacts(n: nat)
    requires n <= 256
    ensures |BytesBelow(n)| == n && forall b: bv8 :: b in BytesBelow(n) <==> b as int < n
  {
    if n > 0 {
      BytesBelowFacts(n - 1);
      Gf256.ByteOfInt(n - 1);
      forall b: bv8 ensures b in BytesBelow(n) <==> b as int < n {
        ByteAsInt(b);
      }
    }
  }

  ghost function AllBytes(): set<bv8> {
    BytesBelow(256)
  }

  lemma AllBytesSize()
    ensures |AllBytes()| == 256
  {
    BytesBelowFacts(256);
  }

  lemma EveryByte(b: bv8)
    ensures b in AllBytes()
  {
    BytesBelowFacts(256);
    ByteAsInt(b);
  }

  /** All byte strings of length n. */
  ghost function Strings(n: nat): set<seq<bv8>> {
    Lists(AllBytes(), n)
  }

  lemma StringsFacts(n: nat)
    ensures |Strings(n)| == Pow(256, n) && forall l: seq<bv8> :: l in Strings(n) <==> |l| == n
  {
    hide Lists, AllBytes;
    AllBytesSize();
    ListsSize(AllBytes(), n);
    forall l: seq<bv8> ensures l in Strings(n) <==> |l| == n {
      ListsMembers(AllBytes(), n, l);
      forall k | 0 <= k < |l| ensures l[k] in AllBytes() {
        EveryByte(l[k]);
      }
    }
  }
}

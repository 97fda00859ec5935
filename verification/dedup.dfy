/** Deduplication of citation sources by uri, first occurrence wins
    (services/geminiService.ts, `uniqueSources`). The adapter writes it as
    `filter((v, i, a) => a.findIndex(v2 => v2.uri === v.uri) === i)`; this
    module models that expression and relates it to a plain left-to-right
    walk that remembers the uris already kept. */
module Dedup {
  import opened Types

  /** The uris occurring in a list of sources. */
  function Uris(a: seq<GroundingSource>): set<string>
  {
    set x | x in a :: x.uri
  }

  /** `a.findIndex(v => v.uri === uri)`: the first position holding that
      uri, or -1 when there is none. */
  function FindIndexByUri(a: seq<GroundingSource>, uri: string): (r: int)
    ensures -1 <= r < |a|
    ensures r == -1 <==> forall j :: 0 <= j < |a| ==> a[j].uri != uri
    ensures 0 <= r ==> a[r].uri == uri && forall j :: 0 <= j < r ==> a[j].uri != uri
    decreases |a|
  {
    if |a| == 0 then -1
    else if a[0].uri == uri then 0
    else
      var k := FindIndexByUri(a[1..], uri);
      if k == -1 then -1 else k + 1
  }

  /** The filter over positions `i..|a|-1`: keep `a[j]` when `j` is the
      first position of its uri. */
  function KeepFirstFrom(a: seq<GroundingSource>, i: nat): seq<GroundingSource>
    requires i <= |a|
    decreases |a| - i
  {
    if i == |a| then []
    else (if FindIndexByUri(a, a[i].uri) == i then [a[i]] else []) + KeepFirstFrom(a, i + 1)
  }

  /** Reference definition: walk left to right and keep a source unless its
      uri is already in `seen`, adding each kept uri to `seen`. */
  function DedupAfter(a: seq<GroundingSource>, seen: set<string>): seq<GroundingSource>
    decreases |a|
  {
    if a == [] then []
    else if a[0].uri in seen then DedupAfter(a[1..], seen)
    else [a[0]] + DedupAfter(a[1..], seen + {a[0].uri})
  }

  /** `xs` can be obtained from `ys` by deleting elements. */
  predicate IsSubsequence<T(==)>(xs: seq<T>, ys: seq<T>)
    decreases |ys|
  {
    if xs == [] then true
    else if ys == [] then false
    else if xs[0] == ys[0] then IsSubsequence(xs[1..], ys[1..])
    else IsSubsequence(xs, ys[1..])
  }

  /** No two entries share a uri. */
  predicate DistinctUris(a: seq<GroundingSource>)
  {
    forall i, j :: 0 <= i < j < |a| ==> a[i].uri != a[j].uri
  }

  /** `uniqueSources`: pairwise-distinct uris, a subsequence of the input,
      every kept entry is the input's first entry with its uri, no uri of
      the input is lost, and the entries come in the order their uris are
      first seen. */
  function UniqueByUri(a: seq<GroundingSource>): (r: seq<GroundingSource>)
    ensures DistinctUris(r)
    ensures IsSubsequence(r, a)
    ensures forall x :: x in r ==> 0 <= FindIndexByUri(a, x.uri) && a[FindIndexByUri(a, x.uri)] == x
    ensures Uris(r) == Uris(a)
    ensures forall k, l :: 0 <= k < l < |r| ==> FindIndexByUri(a, r[k].uri) < FindIndexByUri(a, r[l].uri)
  {
    KeepFirstFromOrdered(a, 0);
    FilterMatchesWalk(a, 0);
    assert a[0..] == a;
    assert Uris(a[..0]) == {};
    DedupDistinct(a, {});
    DedupSubsequence(a, {});
    DedupKeepsFirst(a, {});
    DedupUris(a, {});
    KeepFirstFrom(a, 0)
  }

  /** The filter from position `i` keeps only entries first seen at `i`
      or later. */
  lemma {:induction false} KeepFirstFromAbove(a: seq<GroundingSource>, i: nat)
    requires i <= |a|
    ensures forall k :: 0 <= k < |KeepFirstFrom(a, i)| ==> i <= FindIndexByUri(a, KeepFirstFrom(a, i)[k].uri)
    decreases |a| - i
  {
    if i < |a| {
      KeepFirstFromAbove(a, i + 1);
      var rest := KeepFirstFrom(a, i + 1);
      var head := if FindIndexByUri(a, a[i].uri) == i then [a[i]] else [];
      var r := head + rest;
      assert KeepFirstFrom(a, i) == r;
      forall k | 0 <= k < |r|
        ensures i <= FindIndexByUri(a, r[k].uri)
      {
        if k < |head| {
          assert r[k] == a[i];
        } else {
          assert r[k] == rest[k - |head|];
        }
      }
    }
  }

  /** The filter from position `i` keeps entries in increasing order of
      the position where their uri is first seen. */
  lemma {:induction false} KeepFirstFromOrdered(a: seq<GroundingSource>, i: nat)
    requires i <= |a|
    ensures forall k, l :: 0 <= k < l < |KeepFirstFrom(a, i)| ==>
              FindIndexByUri(a, KeepFirstFrom(a, i)[k].uri) < FindIndexByUri(a, KeepFirstFrom(a, i)[l].uri)
    decreases |a| - i
  {
    if i < |a| {
      KeepFirstFromOrdered(a, i + 1);
      KeepFirstFromAbove(a, i + 1);
      var rest := KeepFirstFrom(a, i + 1);
      if FindIndexByUri(a, a[i].uri) == i {
        var r := [a[i]] + rest;
        assert KeepFirstFrom(a, i) == r;
        forall k, l | 0 <= k < l < |r|
          ensures FindIndexByUri(a, r[k].uri) < FindIndexByUri(a, r[l].uri)
        {
          var y := rest[l - 1];
          assert r[l] == y;
          assert i + 1 <= FindIndexByUri(a, y.uri);
          if k > 0 {
            assert r[k] == rest[k - 1];
          } else {
            assert r[k] == a[i];
          }
        }
      } else {
        assert KeepFirstFrom(a, i) == [] + rest;
        assert [] + rest == rest;
      }
    }
  }

  lemma UrisCons(x: GroundingSource, a: seq<GroundingSource>)
    ensures Uris([x] + a) == {x.uri} + Uris(a)
  {
    assert forall y :: y in [x] + a <==> y == x || y in a;
  }

  /** Stepping over `a[0]` when its uri is known to differ from `uri`. */
  lemma FindIndexPastHead(a: seq<GroundingSource>, uri: string)
    requires |a| > 0 && a[0].uri != uri
    ensures FindIndexByUri(a, uri) == (if FindIndexByUri(a[1..], uri) == -1 then -1 else FindIndexByUri(a[1..], uri) + 1)
  {
  }

  /** The walk keeps entries of `a` whose uris are unseen. */
  lemma {:induction false} DedupKeepsUnseen(a: seq<GroundingSource>, seen: set<string>)
    ensures forall x :: x in DedupAfter(a, seen) ==> x in a && x.uri !in seen
    decreases |a|
  {
    if a != [] {
      DedupKeepsUnseen(a[1..], seen);
      DedupKeepsUnseen(a[1..], seen + {a[0].uri});
    }
  }

  /** The walk keeps each uri at most once. */
  lemma {:induction false} DedupDistinct(a: seq<GroundingSource>, seen: set<string>)
    ensures DistinctUris(DedupAfter(a, seen))
    decreases |a|
  {
    if a != [] && a[0].uri in seen {
      DedupDistinct(a[1..], seen);
    } else if a != [] {
      var r' := DedupAfter(a[1..], seen + {a[0].uri});
      DedupDistinct(a[1..], seen + {a[0].uri});
      DedupKeepsUnseen(a[1..], seen + {a[0].uri});
      var r := [a[0]] + r';
      forall i, j | 0 <= i < j < |r|
        ensures r[i].uri != r[j].uri
      {
        assert r[j] == r'[j - 1] && r'[j - 1] in r';
        if i > 0 {
          assert r[i] == r'[i - 1];
        }
      }
    }
  }

  /** The walk loses no unseen uri and adds no other. */
  lemma {:induction false} DedupUris(a: seq<GroundingSource>, seen: set<string>)
    ensures Uris(DedupAfter(a, seen)) == Uris(a) - seen
    decreases |a|
  {
    if a != [] {
      assert a == [a[0]] + a[1..];
      UrisCons(a[0], a[1..]);
      if a[0].uri in seen {
        DedupUris(a[1..], seen);
      } else {
        var r' := DedupAfter(a[1..], seen + {a[0].uri});
        DedupUris(a[1..], seen + {a[0].uri});
        UrisCons(a[0], r');
      }
    }
  }

  /** The walk deletes entries and never reorders them. */
  lemma {:induction false} DedupSubsequence(a: seq<GroundingSource>, seen: set<string>)
    ensures IsSubsequence(DedupAfter(a, seen), a)
    decreases |a|
  {
    if a != [] {
      var r := DedupAfter(a, seen);
      if a[0].uri in seen {
        DedupSubsequence(a[1..], seen);
        DedupKeepsUnseen(a[1..], seen);
        if r != [] {
          assert r[0] in r;
        }
      } else {
        DedupSubsequence(a[1..], seen + {a[0].uri});
        assert r[1..] == DedupAfter(a[1..], seen + {a[0].uri});
      }
    }
  }

  /** Each kept entry is the first entry of `a` with its uri. */
  lemma {:induction false} DedupKeepsFirst(a: seq<GroundingSource>, seen: set<string>)
    ensures forall x :: x in DedupAfter(a, seen) ==>
              0 <= FindIndexByUri(a, x.uri) && a[FindIndexByUri(a, x.uri)] == x
    decreases |a|
  {
    if a != [] {
      var seen' := if a[0].uri in seen then seen else seen + {a[0].uri};
      var r' := DedupAfter(a[1..], seen');
      DedupKeepsFirst(a[1..], seen');
      DedupKeepsUnseen(a[1..], seen');
      forall x | x in r'
        ensures 0 <= FindIndexByUri(a, x.uri) && a[FindIndexByUri(a, x.uri)] == x
      {
        FindIndexPastHead(a, x.uri);
      }
    }
  }

  /** Position `i` is the first of its uri exactly when that uri does not
      occur before `i`. */
  lemma FirstPositionIffUnseen(a: seq<GroundingSource>, i: nat)
    requires i < |a|
    ensures FindIndexByUri(a, a[i].uri) == i <==> a[i].uri !in Uris(a[..i])
  {
    var u := a[i].uri;
    var k := FindIndexByUri(a, u);
    if u in Uris(a[..i]) {
      var y :| y in a[..i] && y.uri == u;
      var j :| 0 <= j < i && a[..i][j] == y;
      assert a[j].uri == u;
    } else {
      forall j | 0 <= j < i
        ensures a[j].uri != u
      {
        assert a[..i][j] in a[..i];
      }
    }
  }

  /** The filter over positions `i..` equals the walk started from the
      uris of the positions before `i`. */
  lemma {:induction false} FilterMatchesWalk(a: seq<GroundingSource>, i: nat)
    requires i <= |a|
    ensures KeepFirstFrom(a, i) == DedupAfter(a[i..], Uris(a[..i]))
    decreases |a| - i
  {
    if i < |a| {
      var u := a[i].uri;
      var seen := Uris(a[..i]);
      FilterMatchesWalk(a, i + 1);
      FirstPositionIffUnseen(a, i);
      UrisSnoc(a, i);
      assert a[i..][0] == a[i] && a[i..][1..] == a[i + 1..] && a[i..] != [];
      if u in seen {
        assert seen + {u} == seen;
      }
    }
  }

  lemma UrisSnoc(a: seq<GroundingSource>, i: nat)
    requires i < |a|
    ensures Uris(a[..i + 1]) == Uris(a[..i]) + {a[i].uri}
  {
    assert a[..i + 1] == a[..i] + [a[i]];
    assert forall y :: y in a[..i + 1] <==> y in a[..i] || y == a[i];
  }

  /** The dedup example: `[{t1,u1},{t2,u1},{t3,u2}]` keeps the first and the third. */
  lemma DedupExample()
    ensures UniqueByUri([GroundingSource("t1", "u1"), GroundingSource("t2", "u1"), GroundingSource("t3", "u2")])
         == [GroundingSource("t1", "u1"), GroundingSource("t3", "u2")]
  {
    var a := [GroundingSource("t1", "u1"), GroundingSource("t2", "u1"), GroundingSource("t3", "u2")];
    assert "u1" != "u2" by { assert "u1"[1] != "u2"[1]; }
    FilterMatchesWalk(a, 0);
    assert a[0..] == a && a[..0] == [];
    assert Uris([]) == {};
    assert a[1..][1..] == [a[2]];
    assert DedupAfter([a[2]], {"u1"}) == [a[2]];
  }
}

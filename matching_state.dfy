/**
 * Value-level model of the partner array `@ary` held by `GraphMatching::Matching`.
 *
 * The array is indexed by vertex id; entry `i` holds the partner of `i`, or nil
 * when `i` is unmatched. It is modelled as a `seq<Option<nat>>` read and written
 * with Ruby's array rules: reading past the end yields nil, and assigning past
 * the end first pads the array with nil.
 *
 * This module gives every query of the class as a function of the array, the
 * effect of every mutator as a function from the old array to the new one, and
 * the lemmas that relate them. The class in module GraphMatching performs the
 * same updates step by step and is proved against these functions.
 */
module MatchingState {

  datatype Option<+T> = None | Some(value: T)

  datatype Result<+T, +E> = Ok(value: T) | Err(error: E)

  /** An edge as the two-element array `[u, v]` the methods take and return. */
  datatype Edge = Edge(u: nat, v: nat)

  /** The contents of `@ary`. */
  type Store = seq<Option<nat>>

  /** The only error the core raises: `augment` on a path with an even number of edges. */
  datatype AugmentError = InvalidAugmentingPath

  // ---------------------------------------------------------------------------
  // Ruby array access

  /** `@ary[i]`: nil past the end. */
  function At(s: Store, i: nat): Option<nat>
  {
    if i < |s| then s[i] else None
  }

  /** `@ary[i] = x`: the array grows, padded with nil, when `i` is past its end. */
  function Assign(s: Store, i: nat, x: Option<nat>): (r: Store)
    ensures |r| == if i < |s| then |s| else i + 1
    ensures At(r, i) == x
    ensures forall j: nat :: j != i ==> At(r, j) == At(s, j)
  {
    if i < |s| then s[i := x] else s + seq(i - |s|, _ => None) + [x]
  }

  /** Two arrays of the same length are equal when every read agrees. */
  lemma SameEntries(s: Store, t: Store)
    requires |s| == |t|
    requires forall i: nat :: At(s, i) == At(t, i)
    ensures s == t
  {
    forall i | 0 <= i < |s|
      ensures s[i] == t[i]
    {
      assert At(s, i) == At(t, i);
    }
  }

  // ---------------------------------------------------------------------------
  // The invariant

  /**
   * The matching invariant: the partner relation is symmetric and no vertex is
   * its own partner. Each vertex has at most one partner by construction of the
   * array. `add` may break this invariant, so it is a predicate that lemmas
   * assume, not something every operation keeps.
   */
  ghost predicate Valid(s: Store)
  {
    forall i: nat :: At(s, i).Some? ==> At(s, i).value != i && At(s, At(s, i).value) == Some(i)
  }

  /** The vertices that have a partner: the indices of the non-nil entries. */
  function Matched(s: Store): set<nat>
  {
    set i: nat | i < |s| && s[i].Some?
  }

  // ---------------------------------------------------------------------------
  // Low-level mutators

  /**
   * `add([u, v])`: writes both endpoints. A previous partner of `u` or `v` keeps
   * its own entry: nothing else is cleared.
   */
  function Added(s: Store, e: Edge): (r: Store)
    ensures HasEdge(r, e) && HasEdge(r, Edge(e.v, e.u))
    ensures forall x: nat :: x != e.u && x != e.v ==> At(r, x) == At(s, x)
    ensures |s| <= |r|
  {
    Assign(Assign(s, e.u, Some(e.v)), e.v, Some(e.u))
  }

  /** `delete([u, v])`: clears both entries, whatever they held. */
  function Deleted(s: Store, e: Edge): (r: Store)
    ensures At(r, e.u) == None && At(r, e.v) == None
    ensures forall x: nat :: x != e.u && x != e.v ==> At(r, x) == At(s, x)
    ensures |s| <= |r|
  {
    Assign(Assign(s, e.u, None), e.v, None)
  }

  /** Deleting an edge twice leaves the same array as deleting it once. */
  lemma DeleteIdempotent(s: Store, e: Edge)
    ensures Deleted(Deleted(s, e), e) == Deleted(s, e)
  {
    var once := Deleted(s, e);
    var twice := Deleted(once, e);
    assert |twice| == |once| by {
      assert e.u < |once| && e.v < |once|;
    }
    SameEntries(twice, once);
  }

  /** Adding a pair from both of its ends, as `.gabow` does, equals adding it once. */
  lemma AddBothEnds(s: Store, a: nat, b: nat)
    ensures Added(Added(s, Edge(a, b)), Edge(b, a)) == Added(s, Edge(a, b))
  {
    var once := Added(s, Edge(a, b));
    var twice := Added(once, Edge(b, a));
    assert |twice| == |once| by {
      assert a < |once| && b < |once|;
    }
    SameEntries(twice, once);
  }

  /** Deleting a symmetric pair from a valid array keeps it valid. */
  lemma DeletePreservesValid(s: Store, e: Edge)
    requires Valid(s) && HasEdge(s, e)
    ensures Valid(Deleted(s, e))
  {
    var r := Deleted(s, e);
    forall i: nat | At(r, i).Some?
      ensures At(r, i).value != i && At(r, At(r, i).value) == Some(i)
    {
      assert At(r, i) == At(s, i);
    }
  }

  // ---------------------------------------------------------------------------
  // Queries

  /** `has_edge?([u, v])`: both entries point at each other. */
  predicate HasEdge(s: Store, e: Edge): (b: bool)
    ensures b ==> e.u < |s| && e.v < |s|
  {
    At(s, e.u).Some? && At(s, e.u) == Some(e.v) && At(s, e.v) == Some(e.u)
  }

  /** On a valid array one read decides `has_edge?`: the second read follows by symmetry. */
  lemma HasEdgeOnValid(s: Store, e: Edge)
    requires Valid(s)
    ensures HasEdge(s, e) <==> At(s, e.u) == Some(e.v)
  {
    if At(s, e.u) == Some(e.v) {
      assert At(s, e.v) == Some(e.u);
    }
  }

  /** `vertexes` (`@ary.compact`): the non-nil values, in index order. */
  function Vertexes(s: Store): (vs: seq<nat>)
    ensures |vs| <= |s|
    ensures forall v: nat :: v in vs <==> Some(v) in s
  {
    if s == [] then []
    else
      var init := s[..|s| - 1];
      assert s == init + [s[|s| - 1]];
      Vertexes(init) + (if s[|s| - 1].Some? then [s[|s| - 1].value] else [])
  }

  /** `has_vertex?(v)` (`@ary.include?(v)`): `v` occurs as some entry's value. */
  function HasVertex(s: Store, v: nat): (b: bool)
    ensures b <==> v in Vertexes(s)
    ensures Valid(s) ==> (b <==> At(s, v).Some?)
  {
    ValuesAreMatched(s);
    Some(v) in s
  }

  /** On a valid array a vertex occurs as a value exactly when its own entry is non-nil. */
  lemma ValuesAreMatched(s: Store)
    ensures Valid(s) ==> forall v: nat :: Some(v) in s <==> At(s, v).Some?
  {
    if Valid(s) {
      forall v: nat
        ensures Some(v) in s <==> At(s, v).Some?
      {
        if Some(v) in s {
          var i :| 0 <= i < |s| && s[i] == Some(v);
          assert At(s, i) == Some(v);
        }
        if At(s, v).Some? {
          var w := At(s, v).value;
          assert At(s, w) == Some(v);
          assert s[w] == Some(v);
        }
      }
    }
  }

  /** `empty?`: every entry is nil. */
  function IsEmpty(s: Store): (b: bool)
    ensures b <==> Vertexes(s) == []
    ensures b <==> Matched(s) == {}
  {
    var b := forall i :: 0 <= i < |s| ==> s[i].None?;
    assert !b ==> exists i :: 0 <= i < |s| && s[i].Some? && i in Matched(s) && s[i].value in Vertexes(s);
    assert Vertexes(s) != [] ==> Some(Vertexes(s)[0]) in s;
    b
  }

  /** `size`: half the number of non-nil entries. */
  function Size(s: Store): (n: nat)
    ensures n == |Matched(s)| / 2
  {
    VertexesCount(s);
    |Vertexes(s)| / 2
  }

  /** `has_any_vertex?(*vs)`: some matched vertex is among `vs`. */
  function HasAnyVertex(s: Store, vs: seq<nat>): (b: bool)
    ensures b <==> exists v: nat :: v in vs && Some(v) in s
    ensures Valid(s) ==> (b <==> exists v: nat :: v in vs && At(s, v).Some?)
  {
    ValuesAreMatched(s);
    exists v: nat :: v in vs && v in Vertexes(s)
  }

  /** `unmatched_vertexes_in(set)`: the set minus the matched vertices. */
  function UnmatchedVertexesIn(s: Store, c: set<nat>): (r: set<nat>)
    ensures r <= c
    ensures forall v: nat :: v in r <==> v in c && !HasVertex(s, v)
    ensures Valid(s) ==> forall v: nat :: v in r <==> v in c && At(s, v).None?
  {
    c - set v | v in Vertexes(s)
  }

  /** The index of the first non-nil entry. */
  function FirstMatched(s: Store): (i: nat)
    requires !IsEmpty(s)
    ensures i < |s| && s[i].Some?
    ensures forall k :: 0 <= k < i ==> s[k].None?
  {
    if s[0].Some? then 0
    else
      assert !IsEmpty(s[1..]) by {
        var k :| 0 <= k < |s| && s[k].Some?;
        assert s[1..][k - 1].Some?;
      }
      1 + FirstMatched(s[1..])
  }

  /**
   * `first`: with `j` the first non-nil value, `[@ary[j], j]`. On a valid array
   * this is the lowest matched vertex followed by its partner.
   */
  function First(s: Store): (r: (Option<nat>, nat))
    requires !IsEmpty(s)
    ensures Valid(s) ==> r == (Some(FirstMatched(s)), s[FirstMatched(s)].value)
  {
    var j := s[FirstMatched(s)].value;
    (At(s, j), j)
  }

  // ---------------------------------------------------------------------------
  // to_a

  /** The two arrays `to_a` grows: the edges emitted so far and the partners to skip. */
  datatype Scan = Scan(result: seq<Edge>, skip: seq<nat>)

  /**
   * The state of `to_a`'s loop after visiting every entry of `s` in index order:
   * a non-nil entry `e` at `i` that is not in `skip` emits `[i, e]` and puts `e`
   * into `skip`.
   */
  function ToAScan(s: Store): (sc: Scan)
    ensures forall k :: 0 <= k < |sc.result| ==> sc.result[k].u < |s| && s[sc.result[k].u] == Some(sc.result[k].v)
    ensures forall k, l :: 0 <= k < l < |sc.result| ==> sc.result[k].u < sc.result[l].u
  {
    if s == [] then Scan([], [])
    else
      var i := |s| - 1;
      var sc := ToAScan(s[..i]);
      match s[i]
      case None => sc
      case Some(e) => if i in sc.skip then sc else Scan(sc.result + [Edge(i, e)], sc.skip + [e])
  }

  /** The list `to_a` returns. */
  function EdgesOf(s: Store): (es: seq<Edge>)
    ensures forall k :: 0 <= k < |es| ==> es[k].u < |s| && s[es[k].u] == Some(es[k].v)
    ensures forall k, l :: 0 <= k < l < |es| ==> es[k].u < es[l].u
  {
    ToAScan(s).result
  }

  /**
   * Reference definition of a matching's edge list: every pair `[i, p]` with
   * `@ary[i] == p` and `i < p`, in ascending order of `i`.
   */
  function Upward(s: Store): (es: seq<Edge>)
    ensures forall i: nat, j: nat :: Edge(i, j) in es <==> i < j && At(s, i) == Some(j)
    ensures forall k, l :: 0 <= k < l < |es| ==> es[k].u < es[l].u
    ensures forall k :: 0 <= k < |es| ==> es[k].u < |s|
  {
    if s == [] then []
    else
      var i := |s| - 1;
      var init := s[..i];
      var rest := Upward(init);
      assert forall j: nat :: j != i ==> At(init, j) == At(s, j);
      match s[i]
      case None => rest
      case Some(p) => if i < p then rest + [Edge(i, p)] else rest
  }

  /**
   * The vertices `to_a` has marked once it has visited indices below `n`: those
   * whose partner is smaller than both the vertex and `n`.
   */
  ghost predicate SkipsSmallerPartners(s: Store, n: nat, skip: seq<nat>)
  {
    forall x: nat :: x in skip <==> At(s, x).Some? && At(s, x).value < x && At(s, x).value < n
  }

  /** One visited index keeps the marked list as described. */
  lemma SkipStep(s: Store, m: nat, skip: seq<nat>)
    requires Valid(s) && m < |s| && SkipsSmallerPartners(s, m, skip)
    ensures s[m].None? ==> SkipsSmallerPartners(s, m + 1, skip)
    ensures s[m].Some? && s[m].value < m ==> m in skip && SkipsSmallerPartners(s, m + 1, skip)
    ensures s[m].Some? && m < s[m].value ==> m !in skip && SkipsSmallerPartners(s, m + 1, skip + [s[m].value])
  {
    if s[m].Some? {
      var q := s[m].value;
      assert At(s, m) == Some(q) && q != m && At(s, q) == Some(m);
      forall x: nat | At(s, x).Some? && At(s, x).value == m
        ensures x == q
      {
        assert At(s, m) == Some(x);
      }
    } else {
      forall x: nat | At(s, x).Some?
        ensures At(s, x).value != m
      {
        assert At(s, At(s, x).value) == Some(x);
      }
    }
  }

  /** The vertices `to_a` has marked after visiting indices below `n`. */
  lemma {:induction false} ToAScanSkips(s: Store, n: nat)
    requires Valid(s) && n <= |s|
    ensures SkipsSmallerPartners(s, n, ToAScan(s[..n]).skip)
  {
    if n > 0 {
      var m := n - 1;
      ToAScanSkips(s, m);
      assert s[..n][..m] == s[..m];
      SkipStep(s, m, ToAScan(s[..m]).skip);
    }
  }

  /** The loop of `to_a`, visited up to `n`, agrees with the reference definition. */
  lemma {:induction false} ToAScanPrefix(s: Store, n: nat)
    requires Valid(s) && n <= |s|
    ensures ToAScan(s[..n]).result == Upward(s[..n])
  {
    if n > 0 {
      var m := n - 1;
      ToAScanPrefix(s, m);
      ToAScanSkips(s, m);
      var t := s[..n];
      assert t[..m] == s[..m] && t[m] == s[m];
      SkipStep(s, m, ToAScan(s[..m]).skip);
      if s[m].Some? {
        assert At(s, m) == s[m];
      }
    }
  }

  /** On a valid array, `to_a` lists exactly the reference edges. */
  lemma EdgesOfIsUpward(s: Store)
    requires Valid(s)
    ensures EdgesOf(s) == Upward(s)
  {
    ToAScanPrefix(s, |s|);
    assert s[..|s|] == s;
  }

  /**
   * `to_a` on a valid array: each matched pair exactly once, as `[i, partner]`
   * with `i < partner`, in ascending order of `i`.
   */
  lemma EdgesOfListsEachPairOnce(s: Store)
    requires Valid(s)
    ensures forall i: nat, j: nat :: Edge(i, j) in EdgesOf(s) <==> i < j && HasEdge(s, Edge(i, j))
    ensures forall k, l :: 0 <= k < l < |EdgesOf(s)| ==> EdgesOf(s)[k].u < EdgesOf(s)[l].u
  {
    EdgesOfIsUpward(s);
  }

  // ---------------------------------------------------------------------------
  // Counting

  /** The matched vertices of an array: those of all but its last entry, and that one if non-nil. */
  lemma MatchedSnoc(s: Store)
    requires s != []
    ensures Matched(s) == Matched(s[..|s| - 1]) + (if s[|s| - 1].Some? then {|s| - 1} else {})
  {
    var i := |s| - 1;
    var init := s[..i];
    forall x: nat
      ensures x in Matched(s) <==> x in Matched(init) || (x == i && s[i].Some?)
    {
      if x < i {
        assert s[x] == init[x];
      }
    }
  }

  /** The non-nil values are as many as the matched vertices. */
  lemma {:induction false} VertexesCount(s: Store)
    ensures |Vertexes(s)| == |Matched(s)|
  {
    if s != [] {
      var i := |s| - 1;
      var init := s[..i];
      VertexesCount(init);
      MatchedSnoc(s);
    }
  }

  /** The vertices whose partner has a larger index: the first ends of the reference edges. */
  function Lower(s: Store): set<nat>
  {
    set i: nat | i < |s| && s[i].Some? && i < s[i].value
  }

  /** The lower ends of an array: those of all but its last entry, and that one if it qualifies. */
  lemma LowerSnoc(s: Store)
    requires s != []
    ensures Lower(s) == Lower(s[..|s| - 1]) + (if s[|s| - 1].Some? && |s| - 1 < s[|s| - 1].value then {|s| - 1} else {})
  {
    var i := |s| - 1;
    var init := s[..i];
    forall x: nat
      ensures x in Lower(s) <==> x in Lower(init) || (x == i && s[i].Some? && i < s[i].value)
    {
      if x < i {
        assert s[x] == init[x];
      }
    }
  }

  /** There are as many reference edges as lower ends. */
  lemma {:induction false} UpwardCount(s: Store)
    ensures |Upward(s)| == |Lower(s)|
  {
    if s != [] {
      UpwardCount(s[..|s| - 1]);
      CountsSnoc(s);
      LowerSnoc(s);
    }
  }

  /** Clearing one non-nil entry removes one value. */
  lemma VertexesClear(s: Store, k: nat)
    requires k < |s| && s[k].Some?
    ensures |Vertexes(s[k := None])| == |Vertexes(s)| - 1
  {
    var t := s[k := None];
    VertexesCount(s);
    VertexesCount(t);
    assert Matched(t) == Matched(s) - {k};
  }

  /** Clearing one entry removes its reference edge, if it had one. */
  lemma UpwardClear(s: Store, k: nat)
    requires k < |s|
    ensures |Upward(s[k := None])| == |Upward(s)| - (if s[k].Some? && k < s[k].value then 1 else 0)
  {
    var t := s[k := None];
    UpwardCount(s);
    UpwardCount(t);
    assert Lower(t) == Lower(s) - {k};
  }

  /** On a valid array the non-nil entries pair up: twice as many as reference edges. */
  lemma {:induction false} PairCount(s: Store)
    requires Valid(s)
    ensures |Vertexes(s)| == 2 * |Upward(s)|
    decreases |s|
  {
    if s != [] {
      var i := |s| - 1;
      var init := s[..i];
      CountsSnoc(s);
      match s[i]
      case None =>
        DropUnmatchedLast(s);
        PairCount(init);
      case Some(q) =>
        DropMatchedLast(s);
        assert init[q] == s[q] && At(s, q) == Some(i);
        VertexesClear(init, q);
        UpwardClear(init, q);
        PairCount(init[q := None]);
    }
  }

  /** What the last entry adds to the value and reference-edge counts. */
  lemma CountsSnoc(s: Store)
    requires s != []
    ensures |Vertexes(s)| == |Vertexes(s[..|s| - 1])| + (if s[|s| - 1].Some? then 1 else 0)
    ensures |Upward(s)| == |Upward(s[..|s| - 1])| + (if s[|s| - 1].Some? && |s| - 1 < s[|s| - 1].value then 1 else 0)
  {
  }

  /** Dropping an unmatched last entry keeps a valid array valid. */
  lemma DropUnmatchedLast(s: Store)
    requires Valid(s) && s != [] && s[|s| - 1].None?
    ensures Valid(s[..|s| - 1])
  {
    var i := |s| - 1;
    var init := s[..i];
    forall j: nat | At(init, j).Some?
      ensures At(init, j).value != j && At(init, At(init, j).value) == Some(j)
    {
      var p := At(init, j).value;
      assert At(s, p) == Some(j);
      assert p != i;
    }
  }

  /**
   * Dropping a matched last entry and clearing its partner keeps a valid array
   * valid; the partner comes earlier and the last entry is an upward pair's end.
   */
  lemma DropMatchedLast(s: Store)
    requires Valid(s) && s != [] && s[|s| - 1].Some?
    ensures s[|s| - 1].value < |s| - 1
    ensures Valid(s[..|s| - 1][s[|s| - 1].value := None])
  {
    var i := |s| - 1;
    var q := s[i].value;
    assert At(s, i) == Some(q) && At(s, q) == Some(i);
    var t := s[..i][q := None];
    forall j: nat | At(t, j).Some?
      ensures At(t, j).value != j && At(t, At(t, j).value) == Some(j)
    {
      var p := At(t, j).value;
      assert j != q && s[j] == Some(p);
      assert At(s, p) == Some(j);
      assert p != i;
      assert p != q;
    }
  }

  /** `size` equals the length of `to_a` on a valid array. */
  lemma SizeIsEdgeCount(s: Store)
    requires Valid(s)
    ensures Size(s) == |EdgesOf(s)|
    ensures |Vertexes(s)| == 2 * Size(s)
  {
    PairCount(s);
    EdgesOfIsUpward(s);
  }

  /** `first` on a non-empty valid array is the first edge `to_a` lists. */
  lemma FirstIsFirstEdge(s: Store)
    requires Valid(s) && !IsEmpty(s)
    ensures |EdgesOf(s)| > 0
    ensures First(s) == (Some(EdgesOf(s)[0].u), EdgesOf(s)[0].v)
  {
    EdgesOfIsUpward(s);
    var i := FirstMatched(s);
    var p := s[i].value;
    assert At(s, p) == Some(i);
    assert Edge(i, p) in Upward(s);
    var e0 := Upward(s)[0];
    assert At(s, e0.u).Some?;
  }

  // ---------------------------------------------------------------------------
  // augment

  /**
   * The edges of an augmenting path, which arrives as its sequence of vertices:
   * the consecutive pairs.
   */
  function PathEdges(p: seq<nat>): (es: seq<Edge>)
    ensures |es| == if p == [] then 0 else |p| - 1
    ensures forall i :: 0 <= i < |es| ==> es[i] == Edge(p[i], p[i + 1])
  {
    if p == [] then [] else seq(|p| - 1, i requires 0 <= i < |p| - 1 => Edge(p[i], p[i + 1]))
  }

  /** One step of `augment`'s first loop: delete `[v, @ary[v]]` unless `@ary[v]` is nil. */
  function ClearPartner(s: Store, v: nat): (r: Store)
    ensures At(r, v) == None
    ensures At(s, v).Some? ==> At(r, At(s, v).value) == None
    ensures forall x: nat :: x != v && (At(s, v).None? || x != At(s, v).value) ==> At(r, x) == At(s, x)
  {
    match At(s, v)
    case None => s
    case Some(w) => Deleted(s, Edge(v, w))
  }

  /** `augment`'s first loop over the vertices `p`, in order. */
  function Cleared(s: Store, p: seq<nat>): (r: Store)
    ensures forall i :: 0 <= i < |p| ==> At(r, p[i]) == None
    ensures forall x: nat :: At(s, x).None? ==> At(r, x).None?
  {
    if p == [] then s else ClearPartner(Cleared(s, p[..|p| - 1]), p[|p| - 1])
  }

  /** `augment`'s second loop: add the edges at even indices, in order. */
  function AddEven(s: Store, es: seq<Edge>): (r: Store)
    ensures |s| <= |r|
    ensures |es| % 2 == 1 ==> HasEdge(r, es[|es| - 1])
  {
    if es == [] then s
    else
      var t := AddEven(s, es[..|es| - 1]);
      if (|es| - 1) % 2 == 0 then Added(t, es[|es| - 1]) else t
  }

  /** Adding edges never clears an entry: a matched vertex stays matched. */
  lemma {:induction false} AddEvenKeepsMatched(s: Store, es: seq<Edge>, x: nat)
    requires At(s, x).Some?
    ensures At(AddEven(s, es), x).Some?
  {
    if es != [] {
      var t := AddEven(s, es[..|es| - 1]);
      AddEvenKeepsMatched(s, es[..|es| - 1], x);
      if (|es| - 1) % 2 == 0 {
        var e := es[|es| - 1];
        if x == e.u { assert At(Added(t, e), e.u) == Some(e.v); }
        else if x == e.v { assert At(Added(t, e), e.v) == Some(e.u); }
      }
    }
  }

  /**
   * `augment(path)`: rejected unless the path has an odd number of edges, which
   * is an even number of vertices, at least two. Otherwise the partners of the
   * path's vertices are deleted and the path's edges at even indices added.
   */
  function Augmented(s: Store, p: seq<nat>): (r: Result<Store, AugmentError>)
    ensures r.Ok? <==> |p| >= 2 && |p| % 2 == 0
  {
    var es := PathEdges(p);
    if |es| % 2 == 1 then Ok(AddEven(Cleared(s, p), es)) else Err(InvalidAugmentingPath)
  }

  /** `x` is on the path, or its partner is. */
  predicate Touched(s: Store, p: seq<nat>, x: nat)
  {
    x in p || (At(s, x).Some? && At(s, x).value in p)
  }

  /**
   * On a valid array the first loop clears exactly the path's vertices and
   * their partners, and leaves a valid array.
   */
  lemma {:induction false} ClearedEffect(s: Store, p: seq<nat>)
    requires Valid(s)
    ensures forall x: nat :: At(Cleared(s, p), x) == if Touched(s, p, x) then None else At(s, x)
  {
    if p != [] {
      var n := |p| - 1;
      var q := p[..n];
      var v := p[n];
      ClearedEffect(s, q);
      var c := Cleared(s, q);
      assert p == q + [v];
      match At(c, v)
      case None =>
        assert forall x: nat :: At(c, x) == if Touched(s, p, x) then None else At(s, x);
      case Some(w) =>
        assert !Touched(s, q, v) && At(s, v) == Some(w);
        assert At(s, w) == Some(v);
        assert forall x: nat :: At(Cleared(s, p), x) == if Touched(s, p, x) then None else At(s, x);
    }
  }

  /** The first loop leaves a valid array valid. */
  lemma ClearedValid(s: Store, p: seq<nat>)
    requires Valid(s)
    ensures Valid(Cleared(s, p))
  {
    ClearedEffect(s, p);
    var c := Cleared(s, p);
    forall x: nat | At(c, x).Some?
      ensures At(c, x).value != x && At(c, At(c, x).value) == Some(x)
    {
      var y := At(c, x).value;
      assert At(s, y) == Some(x);
    }
  }

  /** The path vertex paired with `p[i]` by the even-index edges. */
  function Mate(p: seq<nat>, i: nat): nat
    requires i < |p|
  {
    if i % 2 == 1 then p[i - 1] else if i + 1 < |p| then p[i + 1] else p[i]
  }

  /** The elements of `p` are pairwise distinct. */
  predicate Distinct(p: seq<nat>)
  {
    forall i: nat, j: nat :: 0 <= i < j < |p| ==> p[i] != p[j]
  }

  /** The second loop's effect of the edge at index `k`. */
  lemma AddEvenStep(t: Store, es: seq<Edge>, k: nat)
    requires k < |es|
    ensures AddEven(t, es[..k + 1]) == if k % 2 == 0 then Added(AddEven(t, es[..k]), es[k]) else AddEven(t, es[..k])
  {
    assert es[..k + 1][..k] == es[..k];
  }

  /**
   * The second loop after `m` edges of a path of distinct vertices, at a path
   * vertex: paired with its neighbour once the even-index edge holding it has
   * been added, as before otherwise.
   */
  lemma {:induction false} AddEvenOnPath(t: Store, p: seq<nat>, m: nat, i: nat)
    requires Distinct(p) && m <= |PathEdges(p)| && i < |p|
    ensures At(AddEven(t, PathEdges(p)[..m]), p[i]) ==
              if i < m || (i == m && i % 2 == 1) then Some(Mate(p, i)) else At(t, p[i])
  {
    var es := PathEdges(p);
    if m == 0 {
      assert es[..m] == [];
    } else {
      var k := m - 1;
      AddEvenOnPath(t, p, k, i);
      AddEvenStep(t, es, k);
      NextParity(k);
      if k % 2 == 0 {
        MatesOfEvenEdge(p, k);
        if i != k && i != k + 1 {
          assert p[i] != p[k] && p[i] != p[k + 1];
        }
      }
    }
  }

  /** The second loop leaves every vertex off the path as it was. */
  lemma {:induction false} AddEvenOffPath(t: Store, p: seq<nat>, m: nat, x: nat)
    requires m <= |PathEdges(p)| && x !in p
    ensures At(AddEven(t, PathEdges(p)[..m]), x) == At(t, x)
  {
    var es := PathEdges(p);
    if m == 0 {
      assert es[..m] == [];
    } else {
      var k := m - 1;
      AddEvenOffPath(t, p, k, x);
      AddEvenStep(t, es, k);
      assert x != p[k] && x != p[k + 1];
    }
  }

  /** After `augment` with an even number of distinct vertices, each path vertex holds its mate. */
  lemma AugmentOnPath(s: Store, p: seq<nat>, i: nat)
    requires Distinct(p) && |p| >= 2 && |p| % 2 == 0 && i < |p|
    ensures Augmented(s, p).Ok? && At(Augmented(s, p).value, p[i]) == Some(Mate(p, i))
  {
    var es := PathEdges(p);
    AddEvenOnPath(Cleared(s, p), p, |es|, i);
    assert es[..|es|] == es;
  }

  /** After `augment` on a valid array, a vertex off the path holds what the first loop left. */
  lemma AugmentOffPath(s: Store, p: seq<nat>, x: nat)
    requires Valid(s) && |p| >= 2 && |p| % 2 == 0 && x !in p
    ensures Augmented(s, p).Ok?
    ensures At(Augmented(s, p).value, x) == if At(s, x).Some? && At(s, x).value in p then None else At(s, x)
  {
    var es := PathEdges(p);
    ClearedEffect(s, p);
    AddEvenOffPath(Cleared(s, p), p, |es|, x);
    assert es[..|es|] == es;
  }

  /**
   * `augment` on a valid array with a path of distinct vertices and an odd
   * number of edges: every even-index path edge is matched both ways, an
   * off-path partner of a path vertex becomes unmatched, every other off-path
   * entry is unchanged, and the result is valid.
   */
  lemma AugmentEffect(s: Store, p: seq<nat>)
    requires Valid(s) && Distinct(p) && |p| >= 2 && |p| % 2 == 0
    ensures Augmented(s, p).Ok?
    ensures forall k :: 0 <= k < |PathEdges(p)| && k % 2 == 0 ==> HasEdge(Augmented(s, p).value, PathEdges(p)[k])
    ensures forall x: nat :: x !in p ==>
      At(Augmented(s, p).value, x) == if At(s, x).Some? && At(s, x).value in p then None else At(s, x)
    ensures Valid(Augmented(s, p).value)
  {
    AugmentPairsPath(s, p);
    AugmentKeepsOffPath(s, p);
    PairedIsValid(s, p, Augmented(s, p).value);
  }

  /** After `augment`, every even-index edge of a path of distinct vertices is matched both ways. */
  lemma AugmentPairsPath(s: Store, p: seq<nat>)
    requires Distinct(p) && |p| >= 2 && |p| % 2 == 0
    ensures Augmented(s, p).Ok?
    ensures forall k :: 0 <= k < |PathEdges(p)| && k % 2 == 0 ==> HasEdge(Augmented(s, p).value, PathEdges(p)[k])
  {
    AugmentOnPath(s, p, 0);
    var r := Augmented(s, p).value;
    forall i | 0 <= i < |p|
      ensures At(r, p[i]) == Some(Mate(p, i))
    {
      AugmentOnPath(s, p, i);
    }
    MatesPairEdges(r, p);
  }

  /**
   * An array in which every path vertex holds its mate matches every
   * even-index edge of the path both ways.
   */
  lemma MatesPairEdges(r: Store, p: seq<nat>)
    requires |p| >= 2
    requires forall i :: 0 <= i < |p| ==> At(r, p[i]) == Some(Mate(p, i))
    ensures forall k :: 0 <= k < |PathEdges(p)| && k % 2 == 0 ==> HasEdge(r, PathEdges(p)[k])
  {
    forall k | 0 <= k < |PathEdges(p)| && k % 2 == 0
      ensures HasEdge(r, PathEdges(p)[k])
    {
      MatesOfEvenEdge(p, k);
      assert At(r, p[k]) == Some(p[k + 1]) && At(r, p[k + 1]) == Some(p[k]);
    }
  }

  /** Consecutive indices have opposite parity. */
  lemma NextParity(k: nat)
    ensures (k + 1) % 2 == 1 - k % 2
  {
  }

  /** The ends of an even-index path edge are each other's mates. */
  lemma MatesOfEvenEdge(p: seq<nat>, k: nat)
    requires k + 1 < |p| && k % 2 == 0
    ensures Mate(p, k) == p[k + 1] && Mate(p, k + 1) == p[k]
  {
  }

  /** After `augment` on a valid array, every vertex off the path holds what the first loop left. */
  lemma AugmentKeepsOffPath(s: Store, p: seq<nat>)
    requires Valid(s) && |p| >= 2 && |p| % 2 == 0
    ensures Augmented(s, p).Ok?
    ensures forall x: nat :: x !in p ==>
      At(Augmented(s, p).value, x) == if At(s, x).Some? && At(s, x).value in p then None else At(s, x)
  {
    forall x: nat | x !in p
      ensures At(Augmented(s, p).value, x) == if At(s, x).Some? && At(s, x).value in p then None else At(s, x)
    {
      AugmentOffPath(s, p, x);
    }
  }

  /**
   * An array that matches the even-index edges of a path of distinct vertices
   * and an even number of them, and keeps every other entry of a valid array
   * less the partners of path vertices, is valid.
   */
  lemma PairedIsValid(s: Store, p: seq<nat>, r: Store)
    requires Valid(s) && Distinct(p) && |p| % 2 == 0
    requires forall k :: 0 <= k < |PathEdges(p)| && k % 2 == 0 ==> HasEdge(r, PathEdges(p)[k])
    requires forall x: nat :: x !in p ==> At(r, x) == if At(s, x).Some? && At(s, x).value in p then None else At(s, x)
    ensures Valid(r)
  {
    var es := PathEdges(p);
    forall x: nat | At(r, x).Some?
      ensures At(r, x).value != x && At(r, At(r, x).value) == Some(x)
    {
      var y := At(r, x).value;
      if x in p {
        var i :| 0 <= i < |p| && p[i] == x;
        var k := i - i % 2;
        assert HasEdge(r, es[k]) && es[k] == Edge(p[k], p[k + 1]);
        assert p[k] != p[k + 1];
      } else {
        assert At(s, x) == Some(y) && y !in p;
        assert At(s, y) == Some(x);
      }
    }
  }

  /**
   * `add` of a pair of distinct unmatched vertices on a valid array keeps it
   * valid and grows `size` by one.
   */
  lemma AddFreePair(s: Store, e: Edge)
    requires Valid(s) && e.u != e.v && At(s, e.u).None? && At(s, e.v).None?
    ensures Valid(Added(s, e))
    ensures Size(Added(s, e)) == Size(s) + 1
  {
    var r := Added(s, e);
    forall x: nat | At(r, x).Some?
      ensures At(r, x).value != x && At(r, At(r, x).value) == Some(x)
    {
      if x != e.u && x != e.v {
        var y := At(s, x).value;
        assert At(s, y) == Some(x);
      }
    }
    forall x: nat
      ensures x in Matched(r) <==> x in Matched(s) + {e.u, e.v}
    {
      assert x in Matched(r) <==> At(r, x).Some?;
      assert x in Matched(s) <==> At(s, x).Some?;
    }
    SizeGrowsByOne(s, r, e.u, e.v);
  }

  /** `delete` undoes an `add` of two unmatched vertices, read by read. */
  lemma DeleteUndoesAdd(s: Store, e: Edge)
    requires At(s, e.u).None? && At(s, e.v).None?
    ensures forall x: nat :: At(Deleted(Added(s, e), e), x) == At(s, x)
  {
  }

  /** `delete` of a matched edge on a valid array shrinks `size` by one. */
  lemma DeleteShrinksSize(s: Store, e: Edge)
    requires Valid(s) && HasEdge(s, e)
    ensures Valid(Deleted(s, e))
    ensures Size(Deleted(s, e)) == Size(s) - 1
  {
    var r := Deleted(s, e);
    DeletePreservesValid(s, e);
    assert e.u != e.v;
    forall x: nat
      ensures x in Matched(s) <==> x in Matched(r) + {e.u, e.v}
    {
      assert x in Matched(r) <==> At(r, x).Some?;
      assert x in Matched(s) <==> At(s, x).Some?;
    }
    SizeGrowsByOne(r, s, e.u, e.v);
  }

  /**
   * `replace` of a matched edge by a pair of distinct vertices that are free
   * once the old edge is deleted keeps a valid array valid and `size` unchanged.
   */
  lemma ReplaceKeepsSize(s: Store, oldEdge: Edge, newEdge: Edge)
    requires Valid(s) && HasEdge(s, oldEdge) && newEdge.u != newEdge.v
    requires At(Deleted(s, oldEdge), newEdge.u).None? && At(Deleted(s, oldEdge), newEdge.v).None?
    ensures Valid(Added(Deleted(s, oldEdge), newEdge))
    ensures Size(Added(Deleted(s, oldEdge), newEdge)) == Size(s)
  {
    DeleteShrinksSize(s, oldEdge);
    AddFreePair(Deleted(s, oldEdge), newEdge);
  }

  /**
   * `augment` with a genuine augmenting path: on a valid array, when the path's
   * endpoints are unmatched and its odd-index edges are matched, the result is
   * valid and `size` grows by exactly one.
   */
  lemma AugmentGrowsSize(s: Store, p: seq<nat>)
    requires Valid(s) && Distinct(p) && |p| >= 2 && |p| % 2 == 0
    requires At(s, p[0]).None? && At(s, p[|p| - 1]).None?
    requires forall k :: 0 <= k < |PathEdges(p)| && k % 2 == 1 ==> HasEdge(s, PathEdges(p)[k])
    ensures Augmented(s, p).Ok?
    ensures Valid(Augmented(s, p).value)
    ensures Size(Augmented(s, p).value) == Size(s) + 1
  {
    AugmentEffect(s, p);
    var r := Augmented(s, p).value;
    var last := |p| - 1;
    GrownMatched(s, p, r);
    assert p[0] != p[last];
    SizeGrowsByOne(s, r, p[0], p[last]);
  }

  /** Two more matched vertices make one more edge. */
  lemma SizeGrowsByOne(s: Store, r: Store, a: nat, b: nat)
    requires a != b && At(s, a).None? && At(s, b).None?
    requires Matched(r) == Matched(s) + {a, b}
    ensures Size(r) == Size(s) + 1
  {
    assert a !in Matched(s) && b !in Matched(s);
    VertexesCount(s);
    VertexesCount(r);
  }

  /**
   * The matched vertices after such an augmentation: those before, plus the two
   * endpoints of the path.
   */
  lemma GrownMatched(s: Store, p: seq<nat>, r: Store)
    requires Valid(s) && |p| >= 2 && |p| % 2 == 0
    requires forall k :: 0 <= k < |PathEdges(p)| && k % 2 == 1 ==> HasEdge(s, PathEdges(p)[k])
    requires forall k :: 0 <= k < |PathEdges(p)| && k % 2 == 0 ==> HasEdge(r, PathEdges(p)[k])
    requires forall x: nat :: x !in p ==> At(r, x) == if At(s, x).Some? && At(s, x).value in p then None else At(s, x)
    requires At(s, p[0]).None? && At(s, p[|p| - 1]).None?
    ensures Matched(r) == Matched(s) + {p[0], p[|p| - 1]}
  {
    forall x: nat
      ensures x in Matched(r) <==> x in Matched(s) + {p[0], p[|p| - 1]}
    {
      GrownMatchedAt(s, p, r, x);
    }
  }

  /** One vertex at a time: matched after the augmentation iff matched before or a path endpoint. */
  lemma GrownMatchedAt(s: Store, p: seq<nat>, r: Store, x: nat)
    requires Valid(s) && |p| >= 2 && |p| % 2 == 0
    requires forall k :: 0 <= k < |PathEdges(p)| && k % 2 == 1 ==> HasEdge(s, PathEdges(p)[k])
    requires forall k :: 0 <= k < |PathEdges(p)| && k % 2 == 0 ==> HasEdge(r, PathEdges(p)[k])
    requires forall x: nat :: x !in p ==> At(r, x) == if At(s, x).Some? && At(s, x).value in p then None else At(s, x)
    requires At(s, p[0]).None? && At(s, p[|p| - 1]).None?
    ensures At(r, x).Some? <==> At(s, x).Some? || x == p[0] || x == p[|p| - 1]
  {
    if x in p {
      var i :| 0 <= i < |p| && p[i] == x;
      PathVertexMatched(s, p, r, i);
    } else {
      OffPathPartnerOffPath(s, p, x);
    }
  }

  /** A path vertex is matched afterwards, and before unless it is an endpoint. */
  lemma PathVertexMatched(s: Store, p: seq<nat>, r: Store, i: nat)
    requires |p| >= 2 && |p| % 2 == 0 && i < |p|
    requires forall k :: 0 <= k < |PathEdges(p)| && k % 2 == 1 ==> HasEdge(s, PathEdges(p)[k])
    requires forall k :: 0 <= k < |PathEdges(p)| && k % 2 == 0 ==> HasEdge(r, PathEdges(p)[k])
    ensures At(r, p[i]).Some?
    ensures 0 < i < |p| - 1 ==> At(s, p[i]).Some?
  {
    var es := PathEdges(p);
    var k := i - i % 2;
    assert HasEdge(r, es[k]) && es[k] == Edge(p[k], p[k + 1]);
    if 0 < i < |p| - 1 {
      InnerVertexMatched(s, p, i);
    }
  }

  /** Off the path, the partner of a vertex is off the path too, so its entry is kept. */
  lemma OffPathPartnerOffPath(s: Store, p: seq<nat>, x: nat)
    requires Valid(s) && |p| >= 2 && x !in p
    requires forall k :: 0 <= k < |PathEdges(p)| && k % 2 == 1 ==> HasEdge(s, PathEdges(p)[k])
    requires At(s, p[0]).None? && At(s, p[|p| - 1]).None?
    ensures At(s, x).Some? ==> At(s, x).value !in p
  {
    if At(s, x).Some? && At(s, x).value in p {
      var j :| 0 <= j < |p| && p[j] == At(s, x).value;
      assert At(s, p[j]) == Some(x);
      InnerVertexMatched(s, p, j);
    }
  }

  /** On such a path each inner vertex is matched, along an odd-index edge, to a path vertex. */
  lemma InnerVertexMatched(s: Store, p: seq<nat>, i: nat)
    requires |p| >= 2 && 0 < i < |p| - 1
    requires forall k :: 0 <= k < |PathEdges(p)| && k % 2 == 1 ==> HasEdge(s, PathEdges(p)[k])
    ensures At(s, p[i]).Some? && At(s, p[i]).value in p
  {
    var es := PathEdges(p);
    var k := if i % 2 == 1 then i else i - 1;
    assert HasEdge(s, es[k]) && es[k] == Edge(p[k], p[k + 1]);
  }

  // ---------------------------------------------------------------------------
  // Construction

  /** One step of `.gabow`'s loop at index `ix`. */
  function GabowStep(mate: seq<nat>, ix: nat, s: Store): (r: Store)
    requires ix < |mate|
    ensures mate[ix] != 0 && Reciprocal(mate, ix) ==> HasEdge(r, Edge(mate[ix], ix))
    ensures !(mate[ix] != 0 && Reciprocal(mate, ix)) ==> r == s
    ensures forall x: nat :: x != ix && x != mate[ix] ==> At(r, x) == At(s, x)
  {
    var n1 := mate[ix];
    if n1 != 0 && n1 < |mate| && mate[n1] == ix then Added(s, Edge(n1, ix)) else s
  }

  /** `.gabow(mate)` after its loop has visited indices `0 .. n - 1`. */
  function GabowPrefix(mate: seq<nat>, n: nat): (r: Store)
    requires n <= |mate|
    ensures forall x: nat :: At(r, x).Some? ==> Reciprocal(mate, x) && At(r, x) == Some(mate[x])
  {
    if n == 0 then [] else GabowStep(mate, n - 1, GabowPrefix(mate, n - 1))
  }

  /** `x` and `mate[x]` name each other, and they are not both the sentinel 0. */
  predicate Reciprocal(mate: seq<nat>, x: nat)
  {
    x < |mate| && mate[x] < |mate| && mate[mate[x]] == x && (x != 0 || mate[x] != 0)
  }

  /** The entries `.gabow` has written after visiting indices `0 .. n - 1`. */
  lemma {:induction false} GabowPrefixEntries(mate: seq<nat>, n: nat)
    requires n <= |mate|
    ensures forall x: nat :: At(GabowPrefix(mate, n), x) ==
                            if Reciprocal(mate, x) && ((x < n && mate[x] != 0) || (mate[x] < n && x != 0)) then Some(mate[x]) else None
  {
    if n > 0 {
      GabowPrefixEntries(mate, n - 1);
    }
  }

  /**
   * `.gabow(mate)`: entry `x` holds `mate[x]` exactly when `mate[x]` names `x`
   * back (a 0 on both sides adds nothing); every other entry is nil.
   */
  lemma GabowEntries(mate: seq<nat>)
    ensures forall x: nat :: At(GabowPrefix(mate, |mate|), x) == if Reciprocal(mate, x) then Some(mate[x]) else None
  {
    GabowPrefixEntries(mate, |mate|);
  }

  /** `.gabow(mate)` matches every reciprocal pair of non-zero vertices. */
  lemma GabowHasReciprocalPairs(mate: seq<nat>, i: nat, j: nat)
    requires i < |mate| && j < |mate| && mate[i] == j && mate[j] == i
    requires i != 0 && j != 0
    ensures HasEdge(GabowPrefix(mate, |mate|), Edge(i, j))
  {
    GabowEntries(mate);
    assert Reciprocal(mate, i) && Reciprocal(mate, j);
  }

  /** `.gabow(mate)` is a valid matching when no non-zero vertex is its own mate. */
  lemma GabowValid(mate: seq<nat>)
    requires forall x: nat :: 0 < x < |mate| ==> mate[x] != x
    ensures Valid(GabowPrefix(mate, |mate|))
  {
    GabowEntries(mate);
    var g := GabowPrefix(mate, |mate|);
    forall x: nat | At(g, x).Some?
      ensures At(g, x).value != x && At(g, At(g, x).value) == Some(x)
    {
      assert Reciprocal(mate, x);
      assert Reciprocal(mate, mate[x]);
    }
  }

  /** `Matching[*edges]`: the edges added one after the other to an empty array. */
  function AddAll(es: seq<Edge>): (r: Store)
    ensures forall k :: 0 <= k < |es| ==> At(r, es[k].u).Some? && At(r, es[k].v).Some?
    ensures es != [] ==> HasEdge(r, es[|es| - 1])
  {
    if es == [] then [] else Added(AddAll(es[..|es| - 1]), es[|es| - 1])
  }

  /** The endpoints of a list of edges. */
  function Endpoints(es: seq<Edge>): (vs: set<nat>)
    ensures forall k :: 0 <= k < |es| ==> es[k].u in vs && es[k].v in vs
  {
    if es == [] then {}
    else
      var n := |es| - 1;
      assert forall k :: 0 <= k < n ==> es[..n][k] == es[k];
      Endpoints(es[..n]) + {es[n].u, es[n].v}
  }

  /** An endpoint of the list belongs to one of its edges. */
  lemma {:induction false} EndpointOf(es: seq<Edge>, x: nat) returns (k: nat)
    requires x in Endpoints(es)
    ensures k < |es| && (es[k].u == x || es[k].v == x)
  {
    var n := |es| - 1;
    if x == es[n].u || x == es[n].v {
      k := n;
    } else {
      k := EndpointOf(es[..n], x);
      assert es[..n][k] == es[k];
    }
  }

  /** No edge is a loop and no two edges share a vertex. */
  predicate VertexDisjoint(es: seq<Edge>)
  {
    && (forall k :: 0 <= k < |es| ==> es[k].u != es[k].v)
    && (forall k, l :: 0 <= k < l < |es| ==>
          es[k].u != es[l].u && es[k].u != es[l].v && es[k].v != es[l].u && es[k].v != es[l].v)
  }

  /** Vertex-disjoint edges have two endpoints each, none shared. */
  lemma {:induction false} EndpointsCount(es: seq<Edge>)
    requires VertexDisjoint(es)
    ensures |Endpoints(es)| == 2 * |es|
  {
    if es != [] {
      var n := |es| - 1;
      var init := es[..n];
      DisjointPrefix(es);
      EndpointsCount(init);
      var a := Endpoints(init);
      var e := es[n];
      forall x | x in a
        ensures x != e.u && x != e.v
      {
        var k := EndpointOf(init, x);
        assert init[k] == es[k];
      }
      assert e.u !in a && e.v !in a + {e.u};
      assert Endpoints(es) == a + {e.u} + {e.v};
    }
  }

  /** Dropping the last edge keeps a list vertex-disjoint. */
  lemma DisjointPrefix(es: seq<Edge>)
    requires VertexDisjoint(es) && es != []
    ensures VertexDisjoint(es[..|es| - 1])
  {
  }

  /** `Matching[*es]` for vertex-disjoint edges: each edge both ways, nothing else. */
  lemma {:induction false} AddAllEntries(es: seq<Edge>)
    requires VertexDisjoint(es)
    ensures forall k :: 0 <= k < |es| ==> HasEdge(AddAll(es), es[k])
    ensures forall x: nat :: x !in Endpoints(es) ==> At(AddAll(es), x) == None
  {
    if es != [] {
      var n := |es| - 1;
      var init := es[..n];
      var e := es[n];
      DisjointPrefix(es);
      AddAllEntries(init);
      var t := AddAll(init);
      assert AddAll(es) == Added(t, e);
      forall k | 0 <= k < n
        ensures HasEdge(AddAll(es), es[k])
      {
        assert init[k] == es[k];
        assert HasEdge(t, es[k]);
      }
      assert Endpoints(es) == Endpoints(init) + {e.u, e.v};
    }
  }

  /** Under `AddAll` of vertex-disjoint edges, a non-nil entry comes from one of the edges. */
  lemma AddAllPartner(es: seq<Edge>, x: nat, y: nat)
    requires VertexDisjoint(es) && At(AddAll(es), x) == Some(y)
    ensures Edge(x, y) in es || Edge(y, x) in es
  {
    AddAllEntries(es);
    var k := EndpointOf(es, x);
    assert HasEdge(AddAll(es), es[k]);
  }

  /**
   * Round trip of `Matching[*es].to_a` for vertex-disjoint edges: the same edges
   * up to orientation and order, each once.
   */
  lemma FromEdgesRoundTrip(es: seq<Edge>)
    requires VertexDisjoint(es)
    ensures Valid(AddAll(es))
    ensures forall i: nat, j: nat :: Edge(i, j) in EdgesOf(AddAll(es)) <==> i < j && (Edge(i, j) in es || Edge(j, i) in es)
    ensures |EdgesOf(AddAll(es))| == |es|
  {
    var s := AddAll(es);
    AddAllEntries(es);
    assert Valid(s) by {
      forall x: nat | At(s, x).Some?
        ensures At(s, x).value != x && At(s, At(s, x).value) == Some(x)
      {
        var y := At(s, x).value;
        AddAllPartner(es, x, y);
        var k :| 0 <= k < |es| && (es[k] == Edge(x, y) || es[k] == Edge(y, x));
        assert HasEdge(s, es[k]);
      }
    }
    EdgesOfIsUpward(s);
    forall i: nat, j: nat
      ensures Edge(i, j) in Upward(s) <==> i < j && (Edge(i, j) in es || Edge(j, i) in es)
    {
      if i < j && (Edge(i, j) in es || Edge(j, i) in es) {
        var k :| 0 <= k < |es| && (es[k] == Edge(i, j) || es[k] == Edge(j, i));
        assert HasEdge(s, es[k]);
      }
      if At(s, i) == Some(j) {
        AddAllPartner(es, i, j);
      }
    }
    assert Matched(s) == Endpoints(es) by {
      forall x: nat ensures x in Matched(s) <==> x in Endpoints(es)
      {
        assert x in Matched(s) <==> At(s, x).Some?;
        if x in Endpoints(es) {
          var k := EndpointOf(es, x);
          assert HasEdge(s, es[k]);
        }
      }
    }
    VertexesCount(s);
    EndpointsCount(es);
    PairCount(s);
  }

  // ---------------------------------------------------------------------------
  // Worked examples

  /**
   * A matching `{(2,3)}` augmented along `[1, 2, 3, 4]`: `(2,3)` is deleted and
   * the edges at indices 0 and 2, `(1,2)` and `(3,4)`, are added.
   */
  lemma AugmentExample()
    ensures Augmented(AddAll([Edge(2, 3)]), [1, 2, 3, 4]) == Ok([None, Some(2), Some(1), Some(4), Some(3)])
  {
    var s: Store := [None, None, Some(3), Some(2)];
    AddOneExample();
    var p: seq<nat> := [1, 2, 3, 4];
    var c: Store := [None, None, None, None];
    ClearedExample(s, p);
    var es := PathEdges(p);
    assert es == [Edge(1, 2), Edge(2, 3), Edge(3, 4)];
    AddEvenExample(c, es);
  }

  lemma AddOneExample()
    ensures AddAll([Edge(2, 3)]) == [None, None, Some(3), Some(2)]
  {
    var es := [Edge(2, 3)];
    assert es[..0] == [];
    var pad: Store := seq(2, _ => None);
    assert pad == [None, None];
    var t: Store := [None, None, Some(3)];
    assert Assign([], 2, Some(3)) == t;
  }

  lemma ClearedExample(s: Store, p: seq<nat>)
    requires s == [None, None, Some(3), Some(2)] && p == [1, 2, 3, 4]
    ensures Cleared(s, p) == [None, None, None, None]
  {
    var c: Store := [None, None, None, None];
    assert p[..1] == [1] && p[..1][..0] == [];
    assert Cleared(s, p[..1]) == s;
    assert p[..2][..1] == p[..1];
    assert Cleared(s, p[..2]) == Deleted(s, Edge(2, 3)) == c;
    assert p[..3][..2] == p[..2];
    assert Cleared(s, p[..3]) == c;
    assert p[..4][..3] == p[..3] && p[..4] == p;
  }

  lemma AddEvenExample(c: Store, es: seq<Edge>)
    requires c == [None, None, None, None] && es == [Edge(1, 2), Edge(2, 3), Edge(3, 4)]
    ensures AddEven(c, es) == [None, Some(2), Some(1), Some(4), Some(3)]
  {
    var t: Store := [None, Some(2), Some(1), None];
    assert es[..1][..0] == [];
    assert AddEven(c, es[..1]) == Added(c, Edge(1, 2)) == t;
    assert es[..2][..1] == es[..1];
    assert AddEven(c, es[..2]) == t;
    assert es[..3][..2] == es[..2] && es[..3] == es;
    assert Assign(t, 3, Some(4)) == [None, Some(2), Some(1), Some(4)];
    var pad: Store := seq(0, _ => None);
    assert pad == [];
  }

  /** `to_a` of the augmented matching above lists `(1,2)` and `(3,4)`. */
  lemma AugmentedEdgesExample()
    ensures EdgesOf([None, Some(2), Some(1), Some(4), Some(3)]) == [Edge(1, 2), Edge(3, 4)]
  {
    var r1: Store := [None];
    var r2: Store := r1 + [Some(2)];
    var r3: Store := r2 + [Some(1)];
    var r4: Store := r3 + [Some(4)];
    var r5: Store := r4 + [Some(3)];
    assert r1[..0] == [] && r2[..1] == r1 && r3[..2] == r2 && r4[..3] == r3 && r5[..4] == r4;
    assert ToAScan(r1) == Scan([], []);
    assert ToAScan(r2) == Scan([Edge(1, 2)], [2]);
    assert ToAScan(r3) == Scan([Edge(1, 2)], [2]);
    assert ToAScan(r4) == Scan([Edge(1, 2), Edge(3, 4)], [2, 4]);
    assert r5 == [None, Some(2), Some(1), Some(4), Some(3)];
  }

  /** A three-vertex path has two edges, an even number, so `augment` rejects it. */
  lemma ThreeVertexPathRejected(s: Store)
    ensures Augmented(s, [1, 2, 3]) == Err(InvalidAugmentingPath)
  {
    assert |PathEdges([1, 2, 3])| == 2;
  }

  /** `to_a` of the matching `{(0,2),(1,3)}` lists each edge once, though both ends are visited. */
  lemma ToAExample()
    ensures EdgesOf([Some(2), Some(3), Some(0), Some(1)]) == [Edge(0, 2), Edge(1, 3)]
  {
    var s1: Store := [Some(2)];
    var s2: Store := s1 + [Some(3)];
    var s3: Store := s2 + [Some(0)];
    var s4: Store := s3 + [Some(1)];
    assert s1[..0] == [] && s2[..1] == s1 && s3[..2] == s2 && s4[..3] == s3;
    assert ToAScan(s1) == Scan([Edge(0, 2)], [2]);
    assert ToAScan(s2) == Scan([Edge(0, 2), Edge(1, 3)], [2, 3]);
    assert ToAScan(s3) == Scan([Edge(0, 2), Edge(1, 3)], [2, 3]);
    assert 3 in ToAScan(s3).skip;
    assert ToAScan(s4) == ToAScan(s3);
    assert s4 == [Some(2), Some(3), Some(0), Some(1)];
  }

  /** `Matching[[0, 2], [1, 3]]` is the array that `ToAExample` reads. */
  lemma AddTwoExample()
    ensures AddAll([Edge(0, 2), Edge(1, 3)]) == [Some(2), Some(3), Some(0), Some(1)]
  {
    var es := [Edge(0, 2), Edge(1, 3)];
    assert es[..1] == [Edge(0, 2)] && es[..1][..0] == [];
    assert Assign([], 0, Some(2)) == [Some(2)];
    var pad: Store := seq(1, _ => None);
    assert pad == [None];
    var s2: Store := [Some(2), None, Some(0)];
    assert AddAll(es[..1]) == Assign([Some(2)], 2, Some(0)) == s2;
    var s3: Store := [Some(2), Some(3), Some(0)];
    assert Assign(s2, 1, Some(3)) == s3;
    assert Assign(s3, 3, Some(1)) == s3 + [Some(1)];
  }

}

/**
 * `GraphMatching::Matching`: the mutable store of a graph matching used by
 * maximum-matching algorithms. Its one field is the partner array `@ary`; the
 * methods below update it in place, statement by statement, and each is proved
 * to produce the array that module MatchingState gives for the operation.
 */
module GraphMatching {
  import opened MatchingState

  class Matching {
    /** `@ary`: entry `i` holds the partner of vertex `i`, or nil. */
    var ary: Store

    /** `initialize`: no vertex is matched. */
    constructor ()
      ensures ary == []
      ensures IsEmpty(ary) && Size(ary) == 0
    {
      ary := [];
    }

    /**
     * `.gabow(mate)`: builds a matching from Gabow's array, in which entry `ix`
     * holds the mate of vertex `ix` or 0.
     */
    static method Gabow(mate: seq<nat>) returns (m: Matching)
      ensures fresh(m)
      ensures m.ary == GabowPrefix(mate, |mate|)
      ensures forall x: nat :: At(m.ary, x) == if Reciprocal(mate, x) then Some(mate[x]) else None
    {
      m := new Matching();
      for ix := 0 to |mate|
        invariant m.ary == GabowPrefix(mate, ix)
      {
        var n1 := mate[ix];
        var n2 := if n1 < |mate| then Some(mate[n1]) else None;
        if n1 != 0 && n2 == Some(ix) {
          m.Add(Edge(n1, ix));
        }
      }
      GabowEntries(mate);
    }

    /** `Matching[*edges]`: adds the edges one after the other. */
    static method FromEdges(edges: seq<Edge>) returns (m: Matching)
      ensures fresh(m)
      ensures m.ary == AddAll(edges)
      ensures VertexDisjoint(edges) ==> forall e :: e in edges ==> HasEdge(m.ary, e)
    {
      m := new Matching();
      for k := 0 to |edges|
        invariant m.ary == AddAll(edges[..k])
      {
        assert edges[..k + 1][..k] == edges[..k];
        m.Add(edges[k]);
      }
      assert edges[..|edges|] == edges;
      if VertexDisjoint(edges) {
        AddAllEntries(edges);
      }
    }

    /**
     * `add([u, v])`: makes `u` and `v` partners. A previous partner of either
     * keeps its entry, so this may break the invariant.
     */
    method Add(o: Edge)
      modifies this
      ensures ary == Added(old(ary), o)
      ensures HasEdge(ary, o) && HasEdge(ary, Edge(o.v, o.u))
      ensures forall x: nat :: x != o.u && x != o.v ==> At(ary, x) == old(At(ary, x))
    {
      ary := Assign(ary, o.u, Some(o.v));
      ary := Assign(ary, o.v, Some(o.u));
    }

    /** `delete([u, v])`: clears both entries, whatever they held. */
    method Delete(edge: Edge)
      modifies this
      ensures ary == Deleted(old(ary), edge)
      ensures At(ary, edge.u).None? && At(ary, edge.v).None?
      ensures forall x: nat :: x != edge.u && x != edge.v ==> At(ary, x) == old(At(ary, x))
    {
      ary := Assign(ary, edge.u, None);
      ary := Assign(ary, edge.v, None);
    }

    /** `replace(old:, new:)`: deletes the old edge, present or not, then adds the new one. */
    method Replace(oldEdge: Edge, newEdge: Edge)
      modifies this
      ensures ary == Added(Deleted(old(ary), oldEdge), newEdge)
      ensures HasEdge(ary, newEdge)
      ensures forall x: nat :: x != newEdge.u && x != newEdge.v ==>
                At(ary, x) == if x == oldEdge.u || x == oldEdge.v then None else old(At(ary, x))
    {
      Delete(oldEdge);
      Add(newEdge);
    }

    /** `replace_if_matched(match:, replacement:)`: a replace, only when `matched` is an edge. */
    method ReplaceIfMatched(matched: Edge, replacement: Edge)
      modifies this
      ensures old(HasEdge(ary, matched)) ==> ary == Added(Deleted(old(ary), matched), replacement)
      ensures !old(HasEdge(ary, matched)) ==> ary == old(ary)
    {
      if HasEdge(ary, matched) {
        Replace(matched, replacement);
      }
    }

    /**
     * `augment(path)`: rejects a path with an even number of edges before
     * changing anything; otherwise deletes the partner of every path vertex,
     * adds the path's edges at even indices and returns this matching.
     */
    method Augment(path: seq<nat>) returns (r: Result<Matching, AugmentError>)
      modifies this
      ensures r.Ok? <==> |path| >= 2 && |path| % 2 == 0
      ensures r.Ok? ==> r.value == this && Augmented(old(ary), path) == Ok(ary)
      ensures r.Err? ==> r.error == InvalidAugmentingPath && ary == old(ary)
    {
      var edges := PathEdges(path);
      if |edges| % 2 != 1 {
        return Err(InvalidAugmentingPath);
      }
      DeletePartnersOf(path);
      AddEvenEdges(edges);
      r := Ok(this);
    }

    /** `augment`'s first loop: each path vertex in turn loses its partner, if it has one. */
    method DeletePartnersOf(path: seq<nat>)
      modifies this
      ensures ary == Cleared(old(ary), path)
    {
      for i := 0 to |path|
        invariant ary == Cleared(old(ary), path[..i])
      {
        assert path[..i + 1][..i] == path[..i];
        var v := path[i];
        var w := At(ary, v);
        if w.Some? {
          Delete(Edge(v, w.value));
        }
      }
      assert path[..|path|] == path;
    }

    /** `augment`'s second loop: the edges at even indices are added, in order. */
    method AddEvenEdges(edges: seq<Edge>)
      modifies this
      ensures ary == AddEven(old(ary), edges)
    {
      for ix := 0 to |edges|
        invariant ary == AddEven(old(ary), edges[..ix])
      {
        assert edges[..ix + 1][..ix] == edges[..ix];
        if ix % 2 == 0 {
          Add(edges[ix]);
        }
      }
      assert edges[..|edges|] == edges;
    }

    /**
     * `to_a`: visits the entries in index order; a non-nil entry not yet marked
     * emits `[i, partner]` and marks the partner.
     */
    method ToA() returns (result: seq<Edge>)
      ensures result == EdgesOf(ary)
      ensures Valid(ary) ==> forall i: nat, j: nat :: Edge(i, j) in result <==> i < j && HasEdge(ary, Edge(i, j))
      ensures Valid(ary) ==> |result| == Size(ary)
    {
      result := [];
      var skip: seq<nat> := [];
      for i := 0 to |ary|
        invariant Scan(result, skip) == ToAScan(ary[..i])
      {
        assert ary[..i + 1][..i] == ary[..i];
        var e := ary[i];
        if !(e.None? || i in skip) {
          result := result + [Edge(i, e.value)];
          skip := skip + [e.value];
        }
      }
      assert ary[..|ary|] == ary;
      if Valid(ary) {
        EdgesOfListsEachPairOnce(ary);
        SizeIsEdgeCount(ary);
      }
    }
  }
}

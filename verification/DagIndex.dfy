/** The layer index, the vertex table and the height of a DAG agree over every run of
    insertions (calf/src/types/dag.rs). */
module DagIndex {
  import Collections
  import Types
  import opened Dag

  /** A layer lists exactly the ids whose stored vertex has that layer; no listed
      layer is empty; the height is the largest layer, or the base when that is larger. */
  ghost predicate Agrees<T>(s: State<T>) {
    && (forall l | l in s.layers :: s.layers[l] != {})
    && (forall l: nat, id :: id in s.Layer(l) <==> id in s.vertices && s.vertices[id].layer == l)
    && (forall id | id in s.vertices :: s.vertices[id].id == id)
    && HeightIsLargest(s)
  }

  ghost predicate HeightIsLargest<T>(s: State<T>) {
    && s.baseLayer <= s.height
    && (forall id | id in s.vertices :: s.vertices[id].layer <= s.height)
    && (s.height == s.baseLayer || exists id :: id in s.vertices && s.vertices[id].layer == s.height)
  }

  /** An insertion keeps the agreement exactly when it does not move a stored id to
      another layer: the index would keep the id in its old layer. */
  lemma {:induction false} InsertAgreesIff<T>(s: State<T>, v: Vertex<T>)
    requires Agrees(s)
    ensures Agrees(s.Insert(v)) <==> (v.id in s.vertices ==> s.vertices[v.id].layer == v.layer)
  {
    var t := s.Insert(v);
    assert t.vertices[v.id] == v && v.id in t.Layer(v.layer);
    if v.id in s.vertices && s.vertices[v.id].layer != v.layer {
      var l := s.vertices[v.id].layer;
      assert v.id in s.Layer(l);
      assert v.id in t.Layer(l) && t.vertices[v.id].layer != l;
    } else {
      forall l: nat, id ensures id in t.Layer(l) <==> id in t.vertices && t.vertices[id].layer == l {
        assert id in s.Layer(l) <==> id in s.vertices && s.vertices[id].layer == l;
      }
      assert HeightIsLargest(t) by {
        if v.layer <= s.height && s.height != s.baseLayer {
          var id :| id in s.vertices && s.vertices[id].layer == s.height;
          assert t.vertices[id].layer == t.height;
        }
      }
    }
  }

  datatype Op<T> = Plain(vertex: Vertex<T>) | OnlyChecked(vertex: Vertex<T>)

  function Apply<T>(s: State<T>, op: Op<T>): State<T> {
    if op.Plain? then s.Insert(op.vertex) else s.InsertChecked(op.vertex)
  }

  function InsertRun<T>(s: State<T>, ops: seq<Op<T>>): State<T> {
    if ops == [] then s else Apply(InsertRun(s, ops[..|ops| - 1]), ops[|ops| - 1])
  }

  /** No two insertions of the run use one id for different layers. */
  ghost predicate IdsFixLayers<T>(ops: seq<Op<T>>) {
    forall i, j :: 0 <= i < |ops| && 0 <= j < |ops| && ops[i].vertex.id == ops[j].vertex.id ==>
      ops[i].vertex.layer == ops[j].vertex.layer
  }

  lemma {:induction false} StoredWasInserted<T>(base: nat, ops: seq<Op<T>>, id: Types.Digest)
    requires id in InsertRun(Empty<T>(base), ops).vertices
    ensures exists i :: 0 <= i < |ops| && ops[i].vertex.id == id
                        && InsertRun(Empty<T>(base), ops).vertices[id] == ops[i].vertex
  {
    var n := |ops| - 1;
    var before := InsertRun(Empty<T>(base), ops[..n]);
    if id in before.vertices && InsertRun(Empty<T>(base), ops).vertices[id] == before.vertices[id] {
      StoredWasInserted(base, ops[..n], id);
      var i :| 0 <= i < n && ops[..n][i].vertex.id == id && before.vertices[id] == ops[..n][i].vertex;
      assert ops[i].vertex.id == id;
    } else {
      assert ops[n].vertex.id == id;
    }
  }

  /** Over every run of plain and checked insertions from a new DAG. */
  lemma {:induction false} RunAgrees<T>(base: nat, ops: seq<Op<T>>)
    requires IdsFixLayers(ops)
    ensures Agrees(InsertRun(Empty<T>(base), ops))
  {
    if ops != [] {
      var n := |ops| - 1;
      var before, v := InsertRun(Empty<T>(base), ops[..n]), ops[n].vertex;
      assert IdsFixLayers(ops[..n]) by {
        assert forall i :: 0 <= i < n ==> ops[..n][i] == ops[i];
      }
      RunAgrees(base, ops[..n]);
      if v.id in before.vertices {
        StoredWasInserted(base, ops[..n], v.id);
        var i :| 0 <= i < n && ops[..n][i].vertex.id == v.id && before.vertices[v.id] == ops[..n][i].vertex;
        assert ops[i].vertex.layer == ops[n].vertex.layer;
      }
      InsertAgreesIff(before, v);
    }
  }

  /** A list that layer_vertices may return has as many entries as layer_size says, and
      they are exactly the vertices stored in that layer. */
  lemma {:induction false} LayerSizeCountsVertices<T>(s: State<T>, l: nat, vs: seq<Vertex<T>>)
    requires Agrees(s) && |vs| == |s.StoredIn(l)| && Collections.Elements(vs) == s.VerticesOf(s.StoredIn(l))
    ensures s.LayerSize(l) == |vs|
    ensures forall v :: v in vs <==> v.id in s.vertices && s.vertices[v.id] == v && v.layer == l
  {
    assert forall id :: id in s.Layer(l) ==> id in s.vertices;
    assert s.StoredIn(l) == s.Layer(l);
    forall v ensures v in vs <==> v.id in s.vertices && s.vertices[v.id] == v && v.layer == l {
      assert v in vs <==> v in Collections.Elements(vs);
      if v.id in s.vertices && s.vertices[v.id] == v && v.layer == l {
        assert v.id in s.StoredIn(l);
      }
    }
  }

  // --- checked insertions only ---

  ghost predicate Gapless<T>(s: State<T>) {
    && (forall l: nat :: l in s.layers <==> l <= s.height)
    && (forall l | l in s.layers :: s.layers[l] != {})
  }

  /** Parents of a vertex above layer 0 are listed exactly one layer below it. */
  ghost predicate ParentsBelow<T>(s: State<T>) {
    forall id | id in s.vertices && s.vertices[id].layer >= 1 ::
      s.vertices[id].parents <= s.Layer(s.vertices[id].layer - 1)
  }

  lemma {:induction false} AcceptedParentsBelow<T>(s: State<T>, v: Vertex<T>)
    requires ParentsBelow(s) && s.CheckParents(v).ParentsOk?
    ensures ParentsBelow(s.Insert(v))
  {
    var t := s.Insert(v);
    assert forall l: nat :: s.Layer(l) <= t.Layer(l);
  }

  lemma {:induction false} CheckedStep<T>(s: State<T>, v: Vertex<T>)
    requires Gapless(s) && ParentsBelow(s)
    ensures Gapless(s.InsertChecked(v)) && ParentsBelow(s.InsertChecked(v))
    ensures forall l: nat :: s.Layer(l) <= s.InsertChecked(v).Layer(l)
  {
    var t := s.InsertChecked(v);
    if s.CheckParents(v).ParentsOk? {
      assert v.layer <= s.height + 1;
      AcceptedParentsBelow(s, v);
    }
  }

  function CheckedRun<T>(s: State<T>, vs: seq<Vertex<T>>): State<T> {
    if vs == [] then s else CheckedRun(s, vs[..|vs| - 1]).InsertChecked(vs[|vs| - 1])
  }

  /** From a root at layer 0 no layer up to the height is ever empty. */
  lemma {:induction false} CheckedRunGapless<T>(root: Vertex<T>, vs: seq<Vertex<T>>)
    requires root.layer == 0
    ensures Gapless(CheckedRun(Empty(0).Insert(root), vs)) && ParentsBelow(CheckedRun(Empty(0).Insert(root), vs))
  {
    var start := Empty(0).Insert(root);
    assert Empty<T>(0).Layer(0) + {root.id} == {root.id};
    assert start.layers == map[0 := {root.id}];
    if vs != [] {
      CheckedRunGapless(root, vs[..|vs| - 1]);
      CheckedStep(CheckedRun(start, vs[..|vs| - 1]), vs[|vs| - 1]);
    }
  }
}

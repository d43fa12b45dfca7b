/** The layered DAG (calf/src/types/dag.rs): its state, its operations, and the
    class that updates it in place. */
module Dag {
  import Collections
  import opened Types

  datatype Vertex<T> = Vertex(data: T, layer: nat, parents: set<Digest>, id: Digest)

  datatype ParentCheck = ParentsOk | MissingParents(missing: set<Digest>)

  datatype State<T> = State(
    vertices: map<Digest, Vertex<T>>, layers: map<nat, set<Digest>>, height: nat, baseLayer: nat)
  {
    function Layer(l: nat): set<Digest> {
      if l in layers then layers[l] else {}
    }

    function LayerSize(l: nat): nat {
      |Layer(l)|
    }

    /** Layer 0 is never checked; a layer without a layer below is always refused. */
    function CheckParents(v: Vertex<T>): ParentCheck {
      if v.layer == 0 then ParentsOk
      else if v.layer - 1 !in layers then MissingParents(v.parents)
      else if v.parents <= layers[v.layer - 1] then ParentsOk
      else MissingParents(v.parents - layers[v.layer - 1])
    }

    /** Stores the vertex whether or not its parents are there. */
    function Insert(v: Vertex<T>): State<T> {
      State(vertices[v.id := v], layers[v.layer := Layer(v.layer) + {v.id}],
            if v.layer > height then v.layer else height, baseLayer)
    }

    function InsertChecked(v: Vertex<T>): State<T> {
      if CheckParents(v).ParentsOk? then Insert(v) else this
    }

    /** The ids of a layer that have a vertex. */
    function StoredIn(l: nat): set<Digest> {
      set id | id in Layer(l) && id in vertices
    }

    ghost function VerticesOf(ids: set<Digest>): set<Vertex<T>> {
      set id | id in ids && id in vertices :: vertices[id]
    }

    lemma {:induction false} OneMoreVertex(ids: set<Digest>, id: Digest)
      requires id in vertices
      ensures VerticesOf(ids + {id}) == VerticesOf(ids) + {vertices[id]}
    {
    }

    /** The data stored under the ids of a layer. */
    ghost function LayerData(l: nat): set<T> {
      set id | id in Layer(l) && id in vertices :: vertices[id].data
    }
  }

  function Empty<T>(baseLayer: nat): State<T> {
    State(map[], map[], baseLayer, baseLayer)
  }

  class Dag<T(==)> {
    var vertices: map<Digest, Vertex<T>>
    var layers: map<nat, set<Digest>>
    var height: nat
    var baseLayer: nat

    function View(): State<T>
      reads this
    {
      State(vertices, layers, height, baseLayer)
    }

    constructor (base: nat)
      ensures View() == Empty(base)
    {
      vertices, layers, height, baseLayer := map[], map[], base, base;
    }

    /** new_with_root unwraps the check of the root, so it panics (None) unless the
        base layer is 0. */
    static method NewWithRoot(base: nat, root: T, id: Digest) returns (r: Option<Dag<T>>)
      ensures r.Some? <==> base == 0
      ensures r.Some? ==> fresh(r.value)
      ensures r.Some? ==> r.value.View() == Empty(base).Insert(Vertex(root, base, {}, id))
    {
      var dag := new Dag(base);
      var check := dag.Insert(Vertex(root, base, {}, id));
      r := if check.ParentsOk? then Some(dag) else None;
    }

    method CheckParents(v: Vertex<T>) returns (check: ParentCheck)
      ensures check == View().CheckParents(v)
    {
      if v.layer == 0 {
        return ParentsOk;
      }
      if v.layer - 1 in layers {
        var potential := layers[v.layer - 1];
        return if v.parents <= potential then ParentsOk else MissingParents(v.parents - potential);
      }
      return MissingParents(v.parents);
    }

    method Insert(v: Vertex<T>) returns (check: ParentCheck)
      modifies this
      ensures View() == old(View()).Insert(v)
      ensures check == old(View()).CheckParents(v)
    {
      check := CheckParents(v);
      vertices := vertices[v.id := v];
      var ids := if v.layer in layers then layers[v.layer] else {};
      layers := layers[v.layer := ids + {v.id}];
      if v.layer > height {
        height := v.layer;
      }
    }

    method InsertChecked(v: Vertex<T>) returns (check: ParentCheck)
      modifies this
      ensures View() == old(View()).InsertChecked(v)
      ensures check == old(View()).CheckParents(v)
    {
      check := CheckParents(v);
      if check.ParentsOk? {
        check := Insert(v);
      }
    }

    method LayerSize(l: nat) returns (n: nat)
      ensures n == View().LayerSize(l)
    {
      n := if l in layers then |layers[l]| else 0;
    }

    /** One stored vertex for every id of the layer that is stored, in some order. */
    method LayerVertices(l: nat) returns (vs: seq<Vertex<T>>)
      ensures |vs| == |View().StoredIn(l)| && Collections.Elements(vs) == View().VerticesOf(View().StoredIn(l))
    {
      vs := [];
      var rest := if l in layers then layers[l] else {};
      ghost var done: set<Digest> := {};
      while rest != {}
        invariant rest <= View().Layer(l) && done == View().StoredIn(l) - rest
        invariant |vs| == |done| && Collections.Elements(vs) == View().VerticesOf(done)
        decreases rest
      {
        var key :| key in rest;
        rest := rest - {key};
        if key in vertices {
          Collections.ElementsPush(vs, vertices[key]);
          View().OneMoreVertex(done, key);
          vs, done := vs + [vertices[key]], done + {key};
        }
      }
      assert done == View().StoredIn(l);
    }

    method LayerData(l: nat) returns (ds: seq<T>)
      ensures |ds| == |View().StoredIn(l)| && Collections.Elements(ds) == View().LayerData(l)
    {
      var vs := LayerVertices(l);
      ds := [];
      for i := 0 to |vs|
        invariant |ds| == i && forall j :: 0 <= j < i ==> ds[j] == vs[j].data
      {
        ds := ds + [vs[i].data];
      }
      forall id | id in View().StoredIn(l) ensures vertices[id].data in ds {
        assert vertices[id] in Collections.Elements(vs);
        var i :| 0 <= i < |vs| && vs[i] == vertices[id];
        assert ds[i] == vertices[id].data;
      }
      forall d | d in ds ensures d in View().LayerData(l) {
        var i :| 0 <= i < |ds| && ds[i] == d;
        assert vs[i] in Collections.Elements(vs);
      }
    }
  }
}

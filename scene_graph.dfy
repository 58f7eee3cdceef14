/**
 * The part of the three.js object model that the model manager and the
 * scene helpers work on: scene-graph nodes with their shadow and culling
 * flags, the geometry and materials a mesh refers to, the textures set on a
 * material, and the `dispose()` calls made on these GPU-backed resources.
 *
 * Modelling assumptions about the library (it is not part of this model):
 *  - `traverse` calls its callback on a node and then, in order, on each
 *    child's subtree (a pre-order walk);
 *  - `clone()` creates new node objects for the whole subtree, copies the
 *    flags, and shares the geometry and material objects with the source
 *    (`Mesh.copy` assigns the references);
 *  - `dispose()` on a geometry, texture or material only releases its GPU
 *    memory; it is recorded here as one entry of a log.
 */
module SceneGraph {

  datatype Option<T> = None | Some(value: T)

  type GeometryId = nat
  type MaterialId = nat
  type TextureId = nat

  /** The texture properties of a three.js material. */
  datatype Slot =
    | Map | LightMap | BumpMap | NormalMap | SpecularMap | EnvMap
    | AoMap | DisplacementMap | MetalnessMap | RoughnessMap | AlphaMap | EmissiveMap

  datatype MaterialKind = MeshStandardMaterial | MeshBasicMaterial | OtherMaterial

  /** A material: its identity, its class, and the texture set on each slot (unset slots are absent). */
  datatype Material = Material(id: MaterialId, kind: MaterialKind, maps: map<Slot, TextureId>)

  /** `mesh.material`: a single material or an array of them. */
  datatype MaterialRef = Single(material: Material) | Multi(materials: seq<Material>)

  /** The materials of `mesh.material`, an array or a one-element list. */
  function Materials(r: MaterialRef): seq<Material>
  {
    match r
    case Single(m) => [m]
    case Multi(ms) => ms
  }

  /** What a node is: `isMesh` nodes carry a geometry (possibly unset) and their material(s). */
  datatype Kind =
    | SceneNode
    | GroupNode
    | MeshNode(geometry: Option<GeometryId>, material: MaterialRef)
    | OtherNode

  /** One `dispose()` call on a GPU-backed resource. */
  datatype DisposeCall =
    | GeometryDisposed(geometry: GeometryId)
    | TextureDisposed(texture: TextureId)
    | MaterialDisposed(material: MaterialId)

  /** The renderer's GPU side, seen through the `dispose()` calls made on it, in order. */
  class Gpu {
    var disposed: seq<DisposeCall>

    constructor ()
      ensures disposed == []
    {
      disposed := [];
    }

    method Dispose(call: DisposeCall)
      modifies this
      ensures disposed == old(disposed) + [call]
    {
      disposed := disposed + [call];
    }
  }

  /**
   * The run of `if (mat.slot) mat.slot.dispose();` statements over `slots`,
   * in order: one texture disposal per slot that is set.
   */
  function SlotDisposals(slots: seq<Slot>, maps: map<Slot, TextureId>): seq<DisposeCall>
  {
    if slots == [] then []
    else
      var s := slots[|slots| - 1];
      SlotDisposals(slots[..|slots| - 1], maps) + (if s in maps then [TextureDisposed(maps[s])] else [])
  }

  /** The slot run, then `mat.dispose()` on the material itself. */
  function MaterialTeardown(slots: seq<Slot>, mat: Material): seq<DisposeCall>
  {
    SlotDisposals(slots, mat.maps) + [MaterialDisposed(mat.id)]
  }

  /** `materials.forEach(mat => ...)` with the teardown above as the body. */
  function MaterialsTeardown(slots: seq<Slot>, ms: seq<Material>): seq<DisposeCall>
  {
    if ms == [] then []
    else MaterialsTeardown(slots, ms[..|ms| - 1]) + MaterialTeardown(slots, ms[|ms| - 1])
  }

  /**
   * What one node contributes to a disposal walk: for a mesh, its geometry
   * when set, then each of its materials; nothing for any other node.
   */
  function MeshTeardown(slots: seq<Slot>, kind: Kind): seq<DisposeCall>
  {
    match kind
    case MeshNode(geometry, material) =>
      (if geometry.Some? then [GeometryDisposed(geometry.value)] else [])
      + MaterialsTeardown(slots, Materials(material))
    case _ => []
  }

  /** A slot run disposes exactly the textures set on the listed slots, and nothing else. */
  lemma {:induction false} SlotDisposalsExactly(slots: seq<Slot>, maps: map<Slot, TextureId>, c: DisposeCall)
    ensures c in SlotDisposals(slots, maps) <==>
              c.TextureDisposed? && exists s :: s in slots && s in maps && maps[s] == c.texture
  {
    if slots != [] {
      var init, last := slots[..|slots| - 1], slots[|slots| - 1];
      assert slots == init + [last];
      SlotDisposalsExactly(init, maps, c);
      if c.TextureDisposed? && exists s :: s in slots && s in maps && maps[s] == c.texture {
        var s :| s in slots && s in maps && maps[s] == c.texture;
        if s != last {
          assert s in init;
        }
      }
    }
  }

  /**
   * Tearing down one material disposes textures only, and the material
   * itself last.
   */
  lemma MaterialDisposedLast(slots: seq<Slot>, mat: Material)
    ensures var r := MaterialTeardown(slots, mat);
            |r| >= 1 && r[|r| - 1] == MaterialDisposed(mat.id) &&
            forall i :: 0 <= i < |r| - 1 ==> r[i].TextureDisposed?
  {
    var slotRun := SlotDisposals(slots, mat.maps);
    forall i | 0 <= i < |slotRun|
      ensures slotRun[i].TextureDisposed?
    {
      SlotDisposalsExactly(slots, mat.maps, slotRun[i]);
    }
  }

  /** A `forEach` over materials disposes exactly what each material's teardown disposes. */
  lemma {:induction false} MaterialsTeardownExactly(slots: seq<Slot>, ms: seq<Material>, c: DisposeCall)
    ensures c in MaterialsTeardown(slots, ms) <==>
              exists k :: 0 <= k < |ms| && c in MaterialTeardown(slots, ms[k])
  {
    if ms != [] {
      var init := ms[..|ms| - 1];
      MaterialsTeardownExactly(slots, init, c);
      if exists k :: 0 <= k < |ms| && c in MaterialTeardown(slots, ms[k]) {
        var k :| 0 <= k < |ms| && c in MaterialTeardown(slots, ms[k]);
        if k < |ms| - 1 {
          assert ms[k] == init[k];
        }
      }
      if c in MaterialsTeardown(slots, init) {
        var k :| 0 <= k < |init| && c in MaterialTeardown(slots, init[k]);
        assert ms[k] == init[k];
      }
    }
  }

  /** One material's teardown disposes the material and the textures set on `slots`, and nothing else. */
  lemma MaterialTeardownExactly(slots: seq<Slot>, mat: Material, c: DisposeCall)
    ensures c in MaterialTeardown(slots, mat) <==>
              c == MaterialDisposed(mat.id) ||
              (c.TextureDisposed? && exists s :: s in slots && s in mat.maps && mat.maps[s] == c.texture)
  {
    SlotDisposalsExactly(slots, mat.maps, c);
  }

  /**
   * A node's teardown disposes exactly: for a mesh, its geometry when set,
   * each of its materials, and each texture set on one of `slots` of one of
   * its materials; for any other node, nothing.
   */
  lemma MeshTeardownExactly(slots: seq<Slot>, kind: Kind, c: DisposeCall)
    ensures c in MeshTeardown(slots, kind) <==>
              kind.MeshNode? &&
              match c
              case GeometryDisposed(g) => kind.geometry == Some(g)
              case MaterialDisposed(id) => exists mat :: mat in Materials(kind.material) && mat.id == id
              case TextureDisposed(t) =>
                exists mat, s :: mat in Materials(kind.material) && s in slots && s in mat.maps && mat.maps[s] == t
  {
    if kind.MeshNode? {
      var ms := Materials(kind.material);
      MaterialsTeardownExactly(slots, ms, c);
      forall k | 0 <= k < |ms| {
        MaterialTeardownExactly(slots, ms[k], c);
      }
      if c.MaterialDisposed? && exists mat :: mat in ms && mat.id == c.material {
        var mat :| mat in ms && mat.id == c.material;
        var k :| 0 <= k < |ms| && ms[k] == mat;
      }
      if c.TextureDisposed? && exists mat, s :: mat in ms && s in slots && s in mat.maps && mat.maps[s] == c.texture {
        var mat, s :| mat in ms && s in slots && s in mat.maps && mat.maps[s] == c.texture;
        var k :| 0 <= k < |ms| && ms[k] == mat;
      }
    }
  }

  /**
   * The run of `if (mat.slot) mat.slot.dispose();` statements for `slots`
   * on one material's texture slots.
   */
  method DisposeSlots(gpu: Gpu, slots: seq<Slot>, maps: map<Slot, TextureId>)
    modifies gpu
    ensures gpu.disposed == old(gpu.disposed) + SlotDisposals(slots, maps)
  {
    for k := 0 to |slots|
      invariant gpu.disposed == old(gpu.disposed) + SlotDisposals(slots[..k], maps)
    {
      assert slots[..k + 1][..k] == slots[..k];
      if slots[k] in maps {
        gpu.Dispose(TextureDisposed(maps[slots[k]]));
      }
    }
    assert slots[..|slots|] == slots;
  }

  /**
   * The teardown of one node's mesh resources: for a mesh, its geometry when
   * set, then for each material in order the textures on `slots` and the
   * material itself; nothing for any other node.
   */
  method DisposeMeshResources(gpu: Gpu, slots: seq<Slot>, kind: Kind)
    modifies gpu
    ensures gpu.disposed == old(gpu.disposed) + MeshTeardown(slots, kind)
  {
    if kind.MeshNode? {
      if kind.geometry.Some? {
        gpu.Dispose(GeometryDisposed(kind.geometry.value));
      }
      DisposeMaterials(gpu, slots, Materials(kind.material));
    }
  }

  /** `materials.forEach(mat => ...)`: the slot run and `mat.dispose()` for each material in order. */
  method DisposeMaterials(gpu: Gpu, slots: seq<Slot>, ms: seq<Material>)
    modifies gpu
    ensures gpu.disposed == old(gpu.disposed) + MaterialsTeardown(slots, ms)
  {
    for k := 0 to |ms|
      invariant gpu.disposed == old(gpu.disposed) + MaterialsTeardown(slots, ms[..k])
    {
      assert ms[..k + 1][..k] == ms[..k];
      DisposeSlots(gpu, slots, ms[k].maps);
      gpu.Dispose(MaterialDisposed(ms[k].id));
    }
    assert ms[..|ms|] == ms;
  }

  /** The nodes of the subtrees rooted at `cs`. */
  ghost function SubtreeNodes(cs: seq<Object3D>): set<Object3D>
  {
    if cs == [] then {} else cs[0].Repr + SubtreeNodes(cs[1..])
  }

  lemma {:induction false} InSubtreeNodes(cs: seq<Object3D>, m: Object3D)
    ensures m in SubtreeNodes(cs) <==> exists i :: 0 <= i < |cs| && m in cs[i].Repr
  {
    if cs != [] {
      var rest := cs[1..];
      InSubtreeNodes(rest, m);
      if exists i :: 0 <= i < |cs| && m in cs[i].Repr {
        var i :| 0 <= i < |cs| && m in cs[i].Repr;
        if i > 0 {
          assert cs[i] == rest[i - 1];
        }
      }
      if m in SubtreeNodes(rest) {
        var i :| 0 <= i < |rest| && m in rest[i].Repr;
        assert cs[i + 1] == rest[i];
      }
    }
  }

  /**
   * A three.js scene-graph node. Its kind (and with it a mesh's geometry and
   * materials) and its children are fixed: no operation of the model
   * manager or of the helpers re-parents nodes or swaps resources. The
   * shadow and culling flags are the fields those operations update.
   */
  class Object3D {
    const kind: Kind
    const children: seq<Object3D>
    /** The node and all its descendants: the nodes `traverse` visits. */
    ghost const Repr: set<Object3D>
    var castShadow: bool
    var receiveShadow: bool
    var frustumCulled: bool

    /** A tree: every node has one parent, and Repr is exactly this node and the children's subtrees. */
    ghost predicate Valid()
      decreases Repr
    {
      && this in Repr
      && (forall i :: 0 <= i < |children| ==>
            && children[i].Repr <= Repr
            && this !in children[i].Repr
            && children[i].Valid())
      && (forall i, j :: 0 <= i < j < |children| ==> children[i].Repr !! children[j].Repr)
      && (forall m :: m in Repr ==> m == this || m in SubtreeNodes(children))
    }

    predicate IsMesh() {
      kind.MeshNode?
    }

    /** A node over the given (disjoint) subtrees, with the given flags. */
    constructor (kind: Kind, children: seq<Object3D>, castShadow: bool, receiveShadow: bool, frustumCulled: bool)
      requires forall i :: 0 <= i < |children| ==> children[i].Valid()
      requires forall i, j :: 0 <= i < j < |children| ==> children[i].Repr !! children[j].Repr
      ensures Valid()
      ensures this.kind == kind && this.children == children
      ensures this.castShadow == castShadow && this.receiveShadow == receiveShadow
      ensures this.frustumCulled == frustumCulled
      ensures Repr == {this} + SubtreeNodes(children)
    {
      this.kind := kind;
      this.children := children;
      this.Repr := {this} + SubtreeNodes(children);
      this.castShadow := castShadow;
      this.receiveShadow := receiveShadow;
      this.frustumCulled := frustumCulled;
      forall i, m | 0 <= i < |children| && m in children[i].Repr
        ensures m in SubtreeNodes(children)
      {
        InSubtreeNodes(children, m);
      }
    }

    /** `object.clone()`: fresh nodes, the same kinds (so shared resources), the same flags. */
    method Clone() returns (c: Object3D)
      requires Valid()
      ensures fresh(c.Repr) && c.Valid()
      ensures SameStructure(this, c) && SameFlags(this, c)
      decreases Repr, 1
    {
      var copies := CloneChildren();
      forall m | m in SubtreeNodes(copies)
        ensures fresh(m)
      {
        InSubtreeNodes(copies, m);
      }
      c := new Object3D(kind, copies, castShadow, receiveShadow, frustumCulled);
    }

    /** The recursive part of `clone()`: a clone of each child, in order, over disjoint fresh nodes. */
    method CloneChildren() returns (copies: seq<Object3D>)
      requires Valid()
      ensures |copies| == |children|
      ensures forall j :: 0 <= j < |copies| ==> fresh(copies[j].Repr)
      ensures forall j :: 0 <= j < |copies| ==> copies[j].Valid() && SameStructure(children[j], copies[j])
      ensures forall j :: 0 <= j < |copies| ==> SameFlags(children[j], copies[j])
      ensures forall j, k :: 0 <= j < k < |copies| ==> copies[j].Repr !! copies[k].Repr
      decreases Repr, 0
    {
      copies := [];
      for i := 0 to |children|
        invariant |copies| == i
        invariant forall j :: 0 <= j < i ==> fresh(copies[j].Repr)
        invariant forall j :: 0 <= j < i ==> copies[j].Valid() && SameStructure(children[j], copies[j])
        invariant forall j :: 0 <= j < i ==> SameFlags(children[j], copies[j])
        invariant forall j, k :: 0 <= j < k < i ==> copies[j].Repr !! copies[k].Repr
      {
        assert children[i].Repr < Repr;
        var d := children[i].Clone();
        assert forall j :: 0 <= j < i ==> copies[j].Repr !! d.Repr;
        copies := copies + [d];
      }
    }
  }

  /**
   * The calls made by a recursive walk that runs `visit` on a node and then,
   * when `descend` holds of the node's kind, walks each child in order.
   * With `descend` always true this is `traverse` with `visit` as callback.
   */
  ghost function Walk(visit: Kind -> seq<DisposeCall>, descend: Kind -> bool, node: Object3D): seq<DisposeCall>
    requires node.Valid()
    decreases node.Repr, 1, 0
  {
    visit(node.kind) + (if descend(node.kind) then ChildWalks(visit, descend, node, |node.children|) else [])
  }

  /** The walks of the first `k` children of `node`, in order. */
  ghost function ChildWalks(visit: Kind -> seq<DisposeCall>, descend: Kind -> bool, node: Object3D, k: nat): seq<DisposeCall>
    requires node.Valid() && k <= |node.children|
    decreases node.Repr, 0, k
  {
    if k == 0 then []
    else
      assert node.children[k - 1].Repr < node.Repr;
      ChildWalks(visit, descend, node, k - 1) + Walk(visit, descend, node.children[k - 1])
  }

  /** The nodes such a walk runs `visit` on. */
  ghost function Reached(descend: Kind -> bool, node: Object3D): set<Object3D>
    requires node.Valid()
    decreases node.Repr
  {
    {node} +
    if descend(node.kind)
    then (set i, m | 0 <= i < |node.children| && m in Reached(descend, node.children[i]) :: m)
    else {}
  }

  /** Running the walk of child `i` after the walks of the children before it. */
  lemma ChildWalksExtend(visit: Kind -> seq<DisposeCall>, descend: Kind -> bool, node: Object3D, i: nat,
                         prefix: seq<DisposeCall>, before: seq<DisposeCall>, after: seq<DisposeCall>)
    requires node.Valid() && i < |node.children|
    requires before == prefix + ChildWalks(visit, descend, node, i)
    requires after == before + Walk(visit, descend, node.children[i])
    ensures after == prefix + ChildWalks(visit, descend, node, i + 1)
  {
  }

  /** Visiting a node that descends and then walking all its children is the walk of the node. */
  lemma WalkComplete(visit: Kind -> seq<DisposeCall>, descend: Kind -> bool, node: Object3D,
                     start: seq<DisposeCall>, visited: seq<DisposeCall>, now: seq<DisposeCall>)
    requires node.Valid() && descend(node.kind)
    requires visited == start + visit(node.kind)
    requires now == visited + ChildWalks(visit, descend, node, |node.children|)
    ensures now == start + Walk(visit, descend, node)
  {
  }

  /** A walk reaches the node itself and, when it descends, what the walks of the children reach. */
  lemma InReached(descend: Kind -> bool, node: Object3D, m: Object3D)
    requires node.Valid()
    ensures m in Reached(descend, node) <==>
              m == node || (descend(node.kind) && exists i :: 0 <= i < |node.children| && m in Reached(descend, node.children[i]))
  {
  }

  /** A walk makes a call if and only if `visit` makes it on some node the walk reaches. */
  lemma {:induction false} WalkExactly(visit: Kind -> seq<DisposeCall>, descend: Kind -> bool, node: Object3D, c: DisposeCall)
    requires node.Valid()
    ensures c in Walk(visit, descend, node) <==> exists m :: m in Reached(descend, node) && c in visit(m.kind)
    decreases node.Repr
  {
    if descend(node.kind) {
      var cs := node.children;
      ChildWalksExactly(visit, descend, node, |cs|, c);
      forall i | 0 <= i < |cs|
        ensures c in Walk(visit, descend, cs[i]) <==> exists m :: m in Reached(descend, cs[i]) && c in visit(m.kind)
      {
        assert cs[i].Repr < node.Repr;
        WalkExactly(visit, descend, cs[i], c);
      }
      if c in Walk(visit, descend, node) && c !in visit(node.kind) {
        var i :| 0 <= i < |cs| && c in Walk(visit, descend, cs[i]);
        var m :| m in Reached(descend, cs[i]) && c in visit(m.kind);
        assert m in Reached(descend, node);
      }
      if exists m :: m in Reached(descend, node) && c in visit(m.kind) {
        var m :| m in Reached(descend, node) && c in visit(m.kind);
        InReached(descend, node, m);
        if m != node {
          var i :| 0 <= i < |cs| && m in Reached(descend, cs[i]);
          assert c in Walk(visit, descend, cs[i]);
        }
      }
    }
  }

  /** The walks of the first `k` children make a call if and only if one of them makes it. */
  lemma {:induction false} ChildWalksExactly(visit: Kind -> seq<DisposeCall>, descend: Kind -> bool, node: Object3D, k: nat, c: DisposeCall)
    requires node.Valid() && k <= |node.children|
    ensures c in ChildWalks(visit, descend, node, k) <==> exists i :: 0 <= i < k && c in Walk(visit, descend, node.children[i])
  {
    if k > 0 {
      ChildWalksExactly(visit, descend, node, k - 1, c);
    }
  }

  /** A walk that descends everywhere reaches every node of the tree: `traverse` visits all of Repr. */
  lemma {:induction false} ReachedEverywhere(descend: Kind -> bool, node: Object3D)
    requires node.Valid()
    requires forall k :: descend(k)
    ensures Reached(descend, node) == node.Repr
    decreases node.Repr
  {
    forall i | 0 <= i < |node.children|
      ensures Reached(descend, node.children[i]) == node.children[i].Repr
    {
      assert node.children[i].Repr < node.Repr;
      ReachedEverywhere(descend, node.children[i]);
    }
    forall m
      ensures m in Reached(descend, node) <==> m in node.Repr
    {
      InSubtreeNodes(node.children, m);
    }
  }

  /** A walk that does not descend from the root reaches the root only. */
  lemma RootOnly(descend: Kind -> bool, node: Object3D)
    requires node.Valid() && !descend(node.kind)
    ensures Reached(descend, node) == {node}
  {
  }

  /** A walk only reaches nodes of the tree. */
  lemma {:induction false} ReachedInTree(descend: Kind -> bool, node: Object3D)
    requires node.Valid()
    ensures Reached(descend, node) <= node.Repr
    decreases node.Repr
  {
    forall i | 0 <= i < |node.children|
      ensures Reached(descend, node.children[i]) <= node.children[i].Repr
    {
      assert node.children[i].Repr < node.Repr;
      ReachedInTree(descend, node.children[i]);
    }
  }

  /** Walks over two trees of the same structure make the same calls in the same order. */
  lemma {:induction false} SameStructureSameWalk(visit: Kind -> seq<DisposeCall>, descend: Kind -> bool, a: Object3D, b: Object3D)
    requires a.Valid() && b.Valid() && SameStructure(a, b)
    ensures Walk(visit, descend, a) == Walk(visit, descend, b)
    decreases a.Repr, 1
  {
    SameStructureSameChildWalks(visit, descend, a, b, |a.children|);
  }

  lemma {:induction false} SameStructureSameChildWalks(visit: Kind -> seq<DisposeCall>, descend: Kind -> bool, a: Object3D, b: Object3D, k: nat)
    requires a.Valid() && b.Valid() && SameStructure(a, b) && k <= |a.children|
    ensures ChildWalks(visit, descend, a, k) == ChildWalks(visit, descend, b, k)
    decreases a.Repr, 0, k
  {
    if k > 0 {
      assert a.children[k - 1].Repr < a.Repr;
      SameStructureSameChildWalks(visit, descend, a, b, k - 1);
      SameStructureSameWalk(visit, descend, a.children[k - 1], b.children[k - 1]);
    }
  }

  /** Two trees of the same shape whose corresponding nodes have the same kind (and so the same resources). */
  ghost predicate SameStructure(a: Object3D, b: Object3D)
    requires a.Valid() && b.Valid()
    decreases a.Repr
  {
    && a.kind == b.kind
    && |a.children| == |b.children|
    && forall i :: 0 <= i < |a.children| ==> SameStructure(a.children[i], b.children[i])
  }

  /** Corresponding nodes of two trees of the same shape carry the same flags. */
  ghost predicate SameFlags(a: Object3D, b: Object3D)
    requires a.Valid() && b.Valid() && SameStructure(a, b)
    reads a.Repr, b.Repr
    decreases a.Repr
  {
    && a.castShadow == b.castShadow
    && a.receiveShadow == b.receiveShadow
    && a.frustumCulled == b.frustumCulled
    && forall i :: 0 <= i < |a.children| ==> SameFlags(a.children[i], b.children[i])
  }
}

/**
 * The scene helpers: the material factory, the shadow-and-culling pass run
 * on loaded models, and the recursive teardown of an object's geometry,
 * materials and textures.
 */
module ThreeHelpers {
  import opened SceneGraph

  /**
   * The texture slots `disposeSingleMaterial` releases, in its order: all
   * twelve a material has.
   */
  const MaterialSlots: seq<Slot> :=
    [Map, LightMap, BumpMap, NormalMap, SpecularMap, EnvMap,
     AoMap, DisplacementMap, MetalnessMap, RoughnessMap, AlphaMap, EmissiveMap]

  /** Every texture slot of a material is among the twelve. */
  lemma EverySlotListed(s: Slot)
    ensures s in MaterialSlots
  {
    match s
    case Map => assert MaterialSlots[0] == s;
    case LightMap => assert MaterialSlots[1] == s;
    case BumpMap => assert MaterialSlots[2] == s;
    case NormalMap => assert MaterialSlots[3] == s;
    case SpecularMap => assert MaterialSlots[4] == s;
    case EnvMap => assert MaterialSlots[5] == s;
    case AoMap => assert MaterialSlots[6] == s;
    case DisplacementMap => assert MaterialSlots[7] == s;
    case MetalnessMap => assert MaterialSlots[8] == s;
    case RoughnessMap => assert MaterialSlots[9] == s;
    case AlphaMap => assert MaterialSlots[10] == s;
    case EmissiveMap => assert MaterialSlots[11] == s;
  }

  // ---------------------------------------------------------------------
  // createMaterial

  /** The material class a type name selects: the two known names, and the standard material for any other. */
  function SelectedKind(typeName: string): (k: MaterialKind)
    ensures k != OtherMaterial
    ensures k == MeshBasicMaterial <==> typeName == "MeshBasicMaterial"
  {
    if typeName == "MeshStandardMaterial" then MeshStandardMaterial
    else if typeName == "MeshBasicMaterial" then MeshBasicMaterial
    else MeshStandardMaterial
  }

  /**
   * The texture properties a three.js material class defines. Its
   * constructor passes the parameters to `setValues`, which keeps a key the
   * class defines and skips (with a console warning) any other: the
   * standard material has no `specularMap`; the basic material has only
   * `map`, `lightMap`, `specularMap`, `envMap`, `aoMap` and `alphaMap`.
   */
  function ClassSlots(kind: MaterialKind): set<Slot>
  {
    match kind
    case MeshStandardMaterial =>
      {Map, LightMap, BumpMap, NormalMap, EnvMap, AoMap, DisplacementMap, MetalnessMap, RoughnessMap, AlphaMap, EmissiveMap}
    case MeshBasicMaterial => {Map, LightMap, SpecularMap, EnvMap, AoMap, AlphaMap}
    case OtherMaterial => {}
  }

  /**
   * `createMaterial(type, properties)`: a new material of the selected class
   * holding those texture properties the class defines. The identity
   * three.js gives the new object is the parameter `id`; the console
   * message for an unknown name is not modelled.
   */
  function CreateMaterial(typeName: string, id: MaterialId, properties: map<Slot, TextureId>): (m: Material)
    ensures m.id == id
    ensures m.kind == MeshStandardMaterial <==> typeName != "MeshBasicMaterial"
    ensures m.kind == MeshBasicMaterial <==> typeName == "MeshBasicMaterial"
    ensures forall s :: s in m.maps <==> s in properties && s in ClassSlots(m.kind)
    ensures forall s :: s in m.maps ==> m.maps[s] == properties[s]
  {
    var kind := SelectedKind(typeName);
    Material(id, kind, map s | s in properties && s in ClassSlots(kind) :: properties[s])
  }

  /**
   * A standard material keeps every texture parameter but `specularMap`; a
   * basic material drops `bumpMap`, `normalMap`, `displacementMap`,
   * `metalnessMap`, `roughnessMap` and `emissiveMap`.
   */
  lemma CreatedMaterialSlots(typeName: string, id: MaterialId, properties: map<Slot, TextureId>, s: Slot)
    ensures var m := CreateMaterial(typeName, id, properties);
            typeName != "MeshBasicMaterial" ==> (s in m.maps <==> s in properties && s != SpecularMap)
    ensures var m := CreateMaterial(typeName, id, properties);
            typeName == "MeshBasicMaterial" ==>
              (s in m.maps <==> s in properties && s != BumpMap && s != NormalMap && s != DisplacementMap &&
                                s != MetalnessMap && s != RoughnessMap && s != EmissiveMap)
  {
    var m := CreateMaterial(typeName, id, properties);
    assert s in m.maps <==> s in properties && s in ClassSlots(m.kind);
    match s
    case Map =>
    case LightMap =>
    case BumpMap =>
    case NormalMap =>
    case SpecularMap =>
    case EnvMap =>
    case AoMap =>
    case DisplacementMap =>
    case MetalnessMap =>
    case RoughnessMap =>
    case AlphaMap =>
    case EmissiveMap =>
  }

  /**
   * Tearing down a created material with `disposeSingleMaterial` disposes
   * exactly the material and the textures it kept from the parameters.
   */
  lemma CreatedMaterialTeardown(typeName: string, id: MaterialId, properties: map<Slot, TextureId>, t: TextureId)
    ensures var m := CreateMaterial(typeName, id, properties);
            TextureDisposed(t) in MaterialTeardown(MaterialSlots, m) <==>
              exists s :: s in properties && s in ClassSlots(m.kind) && properties[s] == t
  {
    var m := CreateMaterial(typeName, id, properties);
    SingleMaterialTeardown(m, TextureDisposed(t));
    if exists s :: s in properties && s in ClassSlots(m.kind) && properties[s] == t {
      var s :| s in properties && s in ClassSlots(m.kind) && properties[s] == t;
      assert m.maps[s] == t;
    }
  }

  /** An unknown type name falls back to exactly what `'MeshStandardMaterial'` gives. */
  lemma UnknownTypeFallsBack(typeName: string, id: MaterialId, properties: map<Slot, TextureId>)
    requires typeName != "MeshStandardMaterial" && typeName != "MeshBasicMaterial"
    ensures CreateMaterial(typeName, id, properties) == CreateMaterial("MeshStandardMaterial", id, properties)
  {
  }

  // ---------------------------------------------------------------------
  // optimizeModel

  /**
   * `optimizeModel(scene)`: every mesh in the tree casts and receives
   * shadows and is frustum-culled afterwards; nothing else changes.
   */
  method OptimizeModel(scene: Object3D)
    requires scene.Valid()
    modifies scene.Repr
    ensures forall m :: m in scene.Repr ==>
              && m.castShadow == (m.IsMesh() || old(m.castShadow))
              && m.receiveShadow == (m.IsMesh() || old(m.receiveShadow))
              && m.frustumCulled == (m.IsMesh() || old(m.frustumCulled))
    decreases scene.Repr
  {
    if scene.IsMesh() {
      scene.castShadow := true;
      scene.receiveShadow := true;
      scene.frustumCulled := true;
    }
    for i := 0 to |scene.children|
      invariant forall m :: m in scene.Repr && !m.IsMesh() ==>
                  && m.castShadow == old(m.castShadow)
                  && m.receiveShadow == old(m.receiveShadow)
                  && m.frustumCulled == old(m.frustumCulled)
      invariant scene.IsMesh() ==> scene.castShadow && scene.receiveShadow && scene.frustumCulled
      invariant forall j, m :: 0 <= j < i && m in scene.children[j].Repr && m.IsMesh() ==>
                  m.castShadow && m.receiveShadow && m.frustumCulled
    {
      assert scene.children[i].Repr < scene.Repr;
      OptimizeModel(scene.children[i]);
    }
    forall m | m in scene.Repr && m.IsMesh()
      ensures m.castShadow && m.receiveShadow && m.frustumCulled
    {
      InSubtreeNodes(scene.children, m);
    }
  }

  // ---------------------------------------------------------------------
  // disposeObject, disposeMaterial, disposeSingleMaterial

  /** `disposeSingleMaterial(material)`: the twelve slots in order, each when set, then the material. */
  method DisposeSingleMaterial(gpu: Gpu, material: Material)
    modifies gpu
    ensures gpu.disposed == old(gpu.disposed) + MaterialTeardown(MaterialSlots, material)
  {
    DisposeSlots(gpu, MaterialSlots, material.maps);
    gpu.Dispose(MaterialDisposed(material.id));
  }

  /** `disposeMaterial(material)`: each element of an array in order, or the single material. */
  method DisposeMaterial(gpu: Gpu, material: MaterialRef)
    modifies gpu
    ensures gpu.disposed == old(gpu.disposed) + MaterialsTeardown(MaterialSlots, Materials(material))
  {
    match material
    case Multi(ms) =>
      for k := 0 to |ms|
        invariant gpu.disposed == old(gpu.disposed) + MaterialsTeardown(MaterialSlots, ms[..k])
      {
        assert ms[..k + 1][..k] == ms[..k];
        DisposeSingleMaterial(gpu, ms[k]);
      }
      assert ms[..|ms|] == ms;
    case Single(m) =>
      DisposeSingleMaterial(gpu, m);
      assert MaterialsTeardown(MaterialSlots, [m]) == MaterialsTeardown(MaterialSlots, []) + MaterialTeardown(MaterialSlots, m);
  }

  /** The calls `disposeObject` makes on one node: a mesh's geometry and materials with all twelve slots. */
  function ObjectVisit(kind: Kind): seq<DisposeCall>
  {
    MeshTeardown(MaterialSlots, kind)
  }

  /** `disposeObject` goes on to the children of a `Scene` and of no other node. */
  predicate DescendScenes(kind: Kind)
  {
    kind.SceneNode?
  }

  /** The `dispose()` calls of `disposeObject(object)`: none for a missing object. */
  ghost function ObjectDisposals(node: Object3D?): seq<DisposeCall>
    requires node != null ==> node.Valid()
  {
    if node == null then [] else Walk(ObjectVisit, DescendScenes, node)
  }

  /**
   * `disposeObject(object)`: nothing for a missing object; for a mesh, its
   * geometry when set and then its material(s); for a scene, each child in
   * order. Children of any other node are not visited.
   */
  method DisposeObject(gpu: Gpu, node: Object3D?)
    requires node != null ==> node.Valid()
    modifies gpu
    ensures node == null ==> gpu.disposed == old(gpu.disposed)
    ensures node != null ==> gpu.disposed == old(gpu.disposed) + Walk(ObjectVisit, DescendScenes, node)
    decreases if node == null then {} else node.Repr
  {
    if node == null {
      return;
    }
    if node.IsMesh() {
      if node.kind.geometry.Some? {
        gpu.Dispose(GeometryDisposed(node.kind.geometry.value));
      }
      DisposeMaterial(gpu, node.kind.material);
    }
    ghost var visited := gpu.disposed;
    if node.kind.SceneNode? {
      for i := 0 to |node.children|
        invariant gpu.disposed == visited + ChildWalks(ObjectVisit, DescendScenes, node, i)
      {
        assert node.children[i].Repr < node.Repr;
        ghost var before := gpu.disposed;
        DisposeObject(gpu, node.children[i]);
        ChildWalksExtend(ObjectVisit, DescendScenes, node, i, visited, before, gpu.disposed);
      }
      WalkComplete(ObjectVisit, DescendScenes, node, old(gpu.disposed), visited, gpu.disposed);
    }
  }

  /**
   * `disposeObject` makes a `dispose()` call if and only if the teardown of
   * some node it reaches makes it.
   */
  lemma ObjectDisposalsExactly(node: Object3D, c: DisposeCall)
    requires node.Valid()
    ensures c in ObjectDisposals(node) <==>
              exists m :: m in Reached(DescendScenes, node) && c in MeshTeardown(MaterialSlots, m.kind)
  {
    WalkExactly(ObjectVisit, DescendScenes, node, c);
  }

  /**
   * On a node that is not a `Scene`, `disposeObject` tears down that node
   * alone: a mesh's own resources, and nothing at all for a group, however
   * many meshes lie below it.
   */
  lemma NonSceneDisposesItselfOnly(node: Object3D)
    requires node.Valid() && !node.kind.SceneNode?
    ensures Reached(DescendScenes, node) == {node}
    ensures ObjectDisposals(node) == MeshTeardown(MaterialSlots, node.kind)
    ensures !node.IsMesh() ==> ObjectDisposals(node) == []
  {
    RootOnly(DescendScenes, node);
    assert ObjectDisposals(node) == ObjectVisit(node.kind) + [];
  }

  /**
   * A node below the root is reached only through a chain of scenes: its
   * parent on the way is a `Scene` the walk reached.
   */
  lemma ReachedThroughScenes(node: Object3D, m: Object3D)
    requires node.Valid() && m in Reached(DescendScenes, node) && m != node
    ensures node.kind.SceneNode?
    ensures exists i :: 0 <= i < |node.children| && m in Reached(DescendScenes, node.children[i])
  {
    InReached(DescendScenes, node, m);
  }

  /**
   * For every mesh `disposeObject` reaches, it disposes the geometry when
   * set, every material, and every texture set on any of the twelve slots.
   */
  lemma ReachedMeshTornDown(node: Object3D, mesh: Object3D, mat: Material, s: Slot)
    requires node.Valid() && mesh in Reached(DescendScenes, node) && mesh.IsMesh()
    ensures mesh.kind.geometry.Some? ==> GeometryDisposed(mesh.kind.geometry.value) in ObjectDisposals(node)
    ensures mat in Materials(mesh.kind.material) ==> MaterialDisposed(mat.id) in ObjectDisposals(node)
    ensures mat in Materials(mesh.kind.material) && s in mat.maps ==> TextureDisposed(mat.maps[s]) in ObjectDisposals(node)
  {
    if mesh.kind.geometry.Some? {
      var c := GeometryDisposed(mesh.kind.geometry.value);
      MeshTeardownExactly(MaterialSlots, mesh.kind, c);
      ObjectDisposalsExactly(node, c);
    }
    if mat in Materials(mesh.kind.material) {
      var c := MaterialDisposed(mat.id);
      MeshTeardownExactly(MaterialSlots, mesh.kind, c);
      ObjectDisposalsExactly(node, c);
      if s in mat.maps {
        var t := TextureDisposed(mat.maps[s]);
        EverySlotListed(s);
        MeshTeardownExactly(MaterialSlots, mesh.kind, t);
        ObjectDisposalsExactly(node, t);
      }
    }
  }

  /**
   * `disposeSingleMaterial` disposes exactly the textures set on the
   * material (on whichever slot) and the material itself, the material last.
   */
  lemma SingleMaterialTeardown(material: Material, c: DisposeCall)
    ensures c in MaterialTeardown(MaterialSlots, material) <==>
              c == MaterialDisposed(material.id) || (c.TextureDisposed? && c.texture in material.maps.Values)
    ensures var r := MaterialTeardown(MaterialSlots, material);
            r[|r| - 1] == MaterialDisposed(material.id)
  {
    MaterialTeardownExactly(MaterialSlots, material, c);
    MaterialDisposedLast(MaterialSlots, material);
    if c.TextureDisposed? && c.texture in material.maps.Values {
      var s :| s in material.maps && material.maps[s] == c.texture;
      EverySlotListed(s);
    }
  }
}

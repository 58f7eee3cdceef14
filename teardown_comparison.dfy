/**
 * The two teardown routines side by side: `disposeModel` of the model
 * manager and `disposeObject` of the scene helpers release different sets
 * of resources for the same tree.
 */
module TeardownComparison {
  import opened SceneGraph
  import ModelManager
  import ThreeHelpers

  /** The slots `disposeSingleMaterial` releases and `disposeModel` does not: exactly three. */
  lemma SkippedSlots(s: Slot)
    ensures s in ThreeHelpers.MaterialSlots
    ensures s !in ModelManager.ModelSlots <==> s == LightMap || s == SpecularMap || s == DisplacementMap
  {
    ThreeHelpers.EverySlotListed(s);
    var ms := ModelManager.ModelSlots;
    match s
    case Map => assert ms[0] == s;
    case AoMap => assert ms[1] == s;
    case BumpMap => assert ms[2] == s;
    case NormalMap => assert ms[3] == s;
    case RoughnessMap => assert ms[4] == s;
    case MetalnessMap => assert ms[5] == s;
    case EmissiveMap => assert ms[6] == s;
    case AlphaMap => assert ms[7] == s;
    case EnvMap => assert ms[8] == s;
    case LightMap =>
    case SpecularMap =>
    case DisplacementMap =>
  }

  /**
   * A texture held only on `lightMap`, `specularMap` or `displacementMap`
   * is released by `disposeSingleMaterial` and never by the material
   * teardown of `disposeModel`.
   */
  lemma SkippedSlotTextureKept(mat: Material, s: Slot)
    requires s in mat.maps && s !in ModelManager.ModelSlots
    requires forall r :: r in mat.maps && r != s ==> mat.maps[r] != mat.maps[s]
    ensures TextureDisposed(mat.maps[s]) in MaterialTeardown(ThreeHelpers.MaterialSlots, mat)
    ensures TextureDisposed(mat.maps[s]) !in MaterialTeardown(ModelManager.ModelSlots, mat)
  {
    var c := TextureDisposed(mat.maps[s]);
    ThreeHelpers.EverySlotListed(s);
    MaterialTeardownExactly(ThreeHelpers.MaterialSlots, mat, c);
    MaterialTeardownExactly(ModelManager.ModelSlots, mat, c);
  }

  /**
   * Under a `Group` root, `disposeModel` releases the geometry of every mesh
   * below, while `disposeObject` releases nothing at all.
   */
  lemma GroupRootContrast(root: Object3D, mesh: Object3D)
    requires root.Valid() && root.kind.GroupNode?
    requires mesh in root.Repr && mesh.IsMesh() && mesh.kind.geometry.Some?
    ensures GeometryDisposed(mesh.kind.geometry.value) in ModelManager.ModelDisposals(root)
    ensures ThreeHelpers.ObjectDisposals(root) == []
  {
    ModelManager.EveryMeshTornDown(root, mesh, Material(0, OtherMaterial, map[]), Map);
    ThreeHelpers.NonSceneDisposesItselfOnly(root);
  }

  /**
   * On a tree whose every inner node is a `Scene`, the two routines reach
   * the same meshes: each mesh geometry `disposeModel` releases,
   * `disposeObject` releases as well.
   */
  lemma ScenesOnlySameGeometries(root: Object3D, g: GeometryId)
    requires root.Valid()
    requires forall m :: m in root.Repr && |m.children| > 0 ==> m.kind.SceneNode?
    ensures GeometryDisposed(g) in ModelManager.ModelDisposals(root) ==>
              GeometryDisposed(g) in ThreeHelpers.ObjectDisposals(root)
  {
    var c := GeometryDisposed(g);
    if c in ModelManager.ModelDisposals(root) {
      ModelManager.ModelDisposalsExactly(root, c);
      var m :| m in root.Repr && m.IsMesh() && c in MeshTeardown(ModelManager.ModelSlots, m.kind);
      ScenesReachAll(root);
      MeshTeardownExactly(ModelManager.ModelSlots, m.kind, c);
      MeshTeardownExactly(ThreeHelpers.MaterialSlots, m.kind, c);
      ThreeHelpers.ObjectDisposalsExactly(root, c);
    }
  }

  /** When only scenes have children, `disposeObject` reaches every node of the tree. */
  lemma {:induction false} ScenesReachAll(root: Object3D)
    requires root.Valid()
    requires forall m :: m in root.Repr && |m.children| > 0 ==> m.kind.SceneNode?
    ensures forall m :: m in root.Repr ==> m in Reached(ThreeHelpers.DescendScenes, root)
    decreases root.Repr
  {
    forall m | m in root.Repr
      ensures m in Reached(ThreeHelpers.DescendScenes, root)
    {
      if m != root {
        InSubtreeNodes(root.children, m);
        var i :| 0 <= i < |root.children| && m in root.children[i].Repr;
        assert root.children[i].Repr < root.Repr;
        ScenesReachAll(root.children[i]);
        InReached(ThreeHelpers.DescendScenes, root, m);
      } else {
        InReached(ThreeHelpers.DescendScenes, root, m);
      }
    }
  }
}

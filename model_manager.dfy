/**
 * The model manager: a cache of loaded glTF scenes keyed by URL, the
 * shadow pass run on every freshly loaded scene, and the teardown of a
 * scene's geometries, materials and textures when its entry is removed.
 *
 * The glTF loader is outside the model: each call of `LoadModel` receives
 * the outcome the loader would deliver for that call, and reports whether
 * the loader was invoked at all.
 */
module ModelManager {
  import opened SceneGraph

  /**
   * The texture slots `disposeModel` releases, in its order: nine of the
   * twelve a material has (`lightMap`, `specularMap` and `displacementMap`
   * are not among them).
   */
  const ModelSlots: seq<Slot> :=
    [Map, AoMap, BumpMap, NormalMap, RoughnessMap, MetalnessMap, EmissiveMap, AlphaMap, EnvMap]

  /** The `traverse` callback of `disposeModel`, on one node. */
  function ModelVisit(kind: Kind): seq<DisposeCall>
  {
    MeshTeardown(ModelSlots, kind)
  }

  /** `traverse` descends into the children of every node. */
  predicate Always(kind: Kind)
  {
    true
  }

  /** The `dispose()` calls of `disposeModel(scene)`, in `traverse` order. */
  ghost function ModelDisposals(scene: Object3D): seq<DisposeCall>
    requires scene.Valid()
  {
    Walk(ModelVisit, Always, scene)
  }

  /**
   * `disposeModel` makes a `dispose()` call if and only if some node of the
   * tree is a mesh whose teardown makes it. Non-mesh nodes contribute
   * nothing.
   */
  lemma ModelDisposalsExactly(scene: Object3D, c: DisposeCall)
    requires scene.Valid()
    ensures c in ModelDisposals(scene) <==>
              exists m :: m in scene.Repr && m.IsMesh() && c in MeshTeardown(ModelSlots, m.kind)
  {
    WalkExactly(ModelVisit, Always, scene, c);
    ReachedEverywhere(Always, scene);
  }

  /**
   * For every mesh in the tree, `disposeModel` disposes its geometry when
   * set, each of its materials, and each texture set on one of the nine
   * slots it handles.
   */
  lemma EveryMeshTornDown(scene: Object3D, mesh: Object3D, mat: Material, s: Slot)
    requires scene.Valid() && mesh in scene.Repr && mesh.IsMesh()
    ensures mesh.kind.geometry.Some? ==> GeometryDisposed(mesh.kind.geometry.value) in ModelDisposals(scene)
    ensures mat in Materials(mesh.kind.material) ==> MaterialDisposed(mat.id) in ModelDisposals(scene)
    ensures mat in Materials(mesh.kind.material) && s in ModelSlots && s in mat.maps ==>
              TextureDisposed(mat.maps[s]) in ModelDisposals(scene)
  {
    if mesh.kind.geometry.Some? {
      var c := GeometryDisposed(mesh.kind.geometry.value);
      MeshTeardownExactly(ModelSlots, mesh.kind, c);
      ModelDisposalsExactly(scene, c);
    }
    if mat in Materials(mesh.kind.material) {
      var c := MaterialDisposed(mat.id);
      MeshTeardownExactly(ModelSlots, mesh.kind, c);
      ModelDisposalsExactly(scene, c);
      if s in ModelSlots && s in mat.maps {
        var t := TextureDisposed(mat.maps[s]);
        MeshTeardownExactly(ModelSlots, mesh.kind, t);
        ModelDisposalsExactly(scene, t);
      }
    }
  }

  /**
   * A texture that `disposeModel` disposes sits on one of its nine slots of
   * some material of some mesh in the tree: a texture set only on
   * `lightMap`, `specularMap` or `displacementMap` is never disposed.
   */
  lemma OnlyNineSlotsDisposed(scene: Object3D, t: TextureId)
    requires scene.Valid()
    requires TextureDisposed(t) in ModelDisposals(scene)
    ensures exists m, mat, s :: m in scene.Repr && m.IsMesh() && mat in Materials(m.kind.material) &&
              s in ModelSlots && s in mat.maps && mat.maps[s] == t
  {
    var c := TextureDisposed(t);
    ModelDisposalsExactly(scene, c);
    var m :| m in scene.Repr && m.IsMesh() && c in MeshTeardown(ModelSlots, m.kind);
    MeshTeardownExactly(ModelSlots, m.kind, c);
  }

  /**
   * Two trees of the same structure release the same resources, in the same
   * order. Since `clone()` shares geometries and materials, the scene a
   * cache entry's `dispose` tears down and the clone the cache holds (and
   * every clone handed out since) lose the same GPU resources.
   */
  lemma SameStructureSameDisposals(a: Object3D, b: Object3D)
    requires a.Valid() && b.Valid() && SameStructure(a, b)
    ensures ModelDisposals(a) == ModelDisposals(b)
  {
    SameStructureSameWalk(ModelVisit, Always, a, b);
  }

  /**
   * `optimizeModel(scene)`: every mesh in the tree casts and receives
   * shadows afterwards; nothing else changes.
   */
  method OptimizeModel(scene: Object3D)
    requires scene.Valid()
    modifies scene.Repr
    ensures forall m :: m in scene.Repr ==>
              && m.castShadow == (m.IsMesh() || old(m.castShadow))
              && m.receiveShadow == (m.IsMesh() || old(m.receiveShadow))
              && m.frustumCulled == old(m.frustumCulled)
    decreases scene.Repr
  {
    if scene.IsMesh() {
      scene.castShadow := true;
      scene.receiveShadow := true;
    }
    for i := 0 to |scene.children|
      invariant forall m :: m in scene.Repr ==>
                  && m.frustumCulled == old(m.frustumCulled)
                  && (!m.IsMesh() ==> m.castShadow == old(m.castShadow) && m.receiveShadow == old(m.receiveShadow))
      invariant scene.IsMesh() ==> scene.castShadow && scene.receiveShadow
      invariant forall j, m :: 0 <= j < i && m in scene.children[j].Repr && m.IsMesh() ==>
                  m.castShadow && m.receiveShadow
    {
      assert scene.children[i].Repr < scene.Repr;
      OptimizeModel(scene.children[i]);
    }
    forall m | m in scene.Repr && m.IsMesh()
      ensures m.castShadow && m.receiveShadow
    {
      InSubtreeNodes(scene.children, m);
    }
  }

  /** Running `optimizeModel` twice leaves the same flags as running it once. */
  method OptimizeModelTwice(scene: Object3D)
    requires scene.Valid()
    modifies scene.Repr
    ensures forall m :: m in scene.Repr ==>
              && m.castShadow == (m.IsMesh() || old(m.castShadow))
              && m.receiveShadow == (m.IsMesh() || old(m.receiveShadow))
              && m.frustumCulled == old(m.frustumCulled)
  {
    OptimizeModel(scene);
    OptimizeModel(scene);
  }

  /**
   * `disposeModel(scene)`: `traverse` with a callback that tears down the
   * mesh resources of each node on the nine slots, so the calls are
   * `ModelDisposals(scene)`.
   */
  method DisposeModel(gpu: Gpu, scene: Object3D)
    requires scene.Valid()
    modifies gpu
    ensures gpu.disposed == old(gpu.disposed) + Walk(ModelVisit, Always, scene)
    decreases scene.Repr
  {
    DisposeMeshResources(gpu, ModelSlots, scene.kind);
    ghost var visited := gpu.disposed;
    for i := 0 to |scene.children|
      invariant gpu.disposed == visited + ChildWalks(ModelVisit, Always, scene, i)
    {
      assert scene.children[i].Repr < scene.Repr;
      ghost var before := gpu.disposed;
      DisposeModel(gpu, scene.children[i]);
      ChildWalksExtend(ModelVisit, Always, scene, i, visited, before, gpu.disposed);
    }
    WalkComplete(ModelVisit, Always, scene, old(gpu.disposed), visited, gpu.disposed);
  }

  /** What the glTF loader delivers for one request. */
  datatype LoadOutcome = Loaded(gltfScene: Object3D) | LoadFailed(error: string)

  /** How the promise returned by `loadModel` settles. */
  datatype LoadResult = Resolved(scene: Object3D) | Rejected(error: string)

  /**
   * A cache entry: the cached copy of the scene, and the scene that the
   * entry's `dispose` closure passes to `disposeModel`.
   */
  datatype CacheItem = CacheItem(scene: Object3D, disposes: Object3D)

  /** The nodes a load outcome hands over to the manager. */
  ghost function Delivered(outcome: LoadOutcome): set<Object3D>
  {
    if outcome.Loaded? then outcome.gltfScene.Repr else {}
  }

  /** The module-level `cache` map and the operations on it. */
  class ModelCache {
    var cache: map<string, CacheItem>
    const gpu: Gpu

    ghost predicate Valid()
      reads this
    {
      forall url :: url in cache ==> cache[url].scene.Valid() && cache[url].disposes.Valid()
    }

    constructor (gpu: Gpu)
      ensures Valid() && cache == map[] && this.gpu == gpu
    {
      cache := map[];
      this.gpu := gpu;
    }

    /**
     * `loadModel(url)`. On a hit the loader is not invoked and a fresh clone
     * of the cached scene is returned. On a miss the loader is invoked: a
     * failure rejects and leaves the cache as it was; a success runs the
     * shadow pass on the loaded scene, caches a clone of it together with a
     * `dispose` over the loaded scene itself, and resolves with the loaded
     * scene. No call disposes anything.
     */
    method LoadModel(url: string, outcome: LoadOutcome) returns (result: LoadResult, loaderCalled: bool)
      requires Valid()
      requires outcome.Loaded? ==> outcome.gltfScene.Valid()
      modifies this, Delivered(outcome)
      ensures Valid()
      ensures gpu.disposed == old(gpu.disposed)
      ensures loaderCalled <==> url !in old(cache)
      ensures url in old(cache) ==>
                && cache == old(cache)
                && unchanged(Delivered(outcome))
                && result.Resolved? && fresh(result.scene.Repr) && result.scene.Valid()
                && SameStructure(cache[url].scene, result.scene)
                && SameFlags(cache[url].scene, result.scene)
      ensures url !in old(cache) && outcome.LoadFailed? ==>
                result == Rejected(outcome.error) && cache == old(cache)
      ensures url !in old(cache) && outcome.Loaded? ==>
                var scene := outcome.gltfScene;
                && result == Resolved(scene)
                && url in cache && cache == old(cache)[url := cache[url]]
                && cache[url].disposes == scene
                && fresh(cache[url].scene.Repr)
                && SameStructure(scene, cache[url].scene) && SameFlags(scene, cache[url].scene)
                && forall m :: m in scene.Repr ==>
                     && m.castShadow == (m.IsMesh() || old(m.castShadow))
                     && m.receiveShadow == (m.IsMesh() || old(m.receiveShadow))
                     && m.frustumCulled == old(m.frustumCulled)
    {
      if url in cache {
        var cachedModel := cache[url];
        var copy := cachedModel.scene.Clone();
        return Resolved(copy), false;
      }
      loaderCalled := true;
      match outcome
      case LoadFailed(error) =>
        result := Rejected(error);
      case Loaded(scene) =>
        OptimizeModel(scene);
        CacheModel(url, scene, scene);
        result := Resolved(scene);
    }

    /**
     * `cacheModel(url, scene, dispose)`: sets the entry for `url` to a clone
     * of `scene` and the given `dispose`, overwriting any previous entry,
     * whose `dispose` is then never called. Other keys are untouched.
     */
    method CacheModel(url: string, scene: Object3D, disposes: Object3D)
      requires Valid() && scene.Valid() && disposes.Valid()
      modifies this
      ensures Valid()
      ensures gpu.disposed == old(gpu.disposed)
      ensures url in cache && cache == old(cache)[url := cache[url]]
      ensures cache[url].disposes == disposes
      ensures fresh(cache[url].scene.Repr)
      ensures SameStructure(scene, cache[url].scene) && SameFlags(scene, cache[url].scene)
    {
      var copy := scene.Clone();
      cache := cache[url := CacheItem(copy, disposes)];
    }

    /**
     * `removeModelFromCache(url)`: on a present key, runs that entry's
     * `dispose` once and deletes the key; on an absent key, does nothing.
     * Other keys are untouched.
     */
    method RemoveModelFromCache(url: string)
      requires Valid()
      modifies this, gpu
      ensures Valid()
      ensures cache == old(cache) - {url}
      ensures url in old(cache) ==>
                gpu.disposed == old(gpu.disposed) + ModelDisposals(old(cache)[url].disposes)
      ensures url !in old(cache) ==> gpu.disposed == old(gpu.disposed)
    {
      if url in cache {
        var cachedModel := cache[url];
        DisposeModel(gpu, cachedModel.disposes);
        cache := cache - {url};
      }
    }
  }

  /**
   * A successful load followed by a second load of the same URL: the second
   * call does not invoke the loader, and neither caller receives the cached
   * object.
   */
  method LoadThenReload(manager: ModelCache, url: string, outcome: LoadOutcome, later: LoadOutcome)
    returns (first: LoadResult, second: LoadResult, secondCalledLoader: bool)
    requires manager.Valid() && url !in manager.cache
    requires outcome.Loaded? && outcome.gltfScene.Valid()
    requires later.Loaded? ==> later.gltfScene.Valid()
    modifies manager, Delivered(outcome), Delivered(later)
    ensures manager.Valid() && url in manager.cache
    ensures first == Resolved(outcome.gltfScene) && second.Resolved? && !secondCalledLoader
    ensures manager.cache[url].scene != first.scene && manager.cache[url].scene != second.scene
    ensures first.scene != second.scene
  {
    var calledLoader;
    first, calledLoader := manager.LoadModel(url, outcome);
    second, secondCalledLoader := manager.LoadModel(url, later);
  }

  /** Removing the same URL twice: the second call disposes nothing. */
  method RemoveTwice(manager: ModelCache, url: string)
    requires manager.Valid()
    modifies manager, manager.gpu
    ensures url !in manager.cache && manager.cache == old(manager.cache) - {url}
    ensures url in old(manager.cache) ==>
              manager.gpu.disposed == old(manager.gpu.disposed) + ModelDisposals(old(manager.cache)[url].disposes)
    ensures url !in old(manager.cache) ==> manager.gpu.disposed == old(manager.gpu.disposed)
  {
    manager.RemoveModelFromCache(url);
    manager.RemoveModelFromCache(url);
  }
}

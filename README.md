# threeview-product-3d-landings: model cache, scene teardown and string helpers

This project models the logic core of a three.js product-landing site. The core is three utility modules:

- **The model manager** (`src/utils/modelManager.ts`). It keeps a module-level `cache` of loaded glTF scenes keyed by URL.
  - `loadModel` serves a clone of the cached scene on a hit.
  - On a miss it runs the glTF loader. On success it runs `optimizeModel` on the scene, caches a clone of it with a `dispose` closure over the loaded scene, and resolves with the loaded scene. On failure it rejects.
  - `removeModelFromCache` runs the entry's `dispose` (which is `disposeModel`) and deletes the key.
- **The scene helpers** (`src/utils/three-helpers.ts`).
  - `createMaterial` picks a material class by name.
  - `optimizeModel` turns on shadows and frustum culling for every mesh.
  - `disposeObject`, `disposeMaterial` and `disposeSingleMaterial` release geometries, materials and textures.
- **The string helpers** (`src/utils/format.ts`): `truncateString`, `escapeHTML`, `sanitizeText` and `capitalizeFirstLetter`.

Files:

- `scene_graph.dfy` (module `SceneGraph`): the three.js object model the two other modules share.
  - Scene nodes are heap objects of class `Object3D`. A node's kind and children are fixed. Its shadow and culling flags are mutable fields.
  - Meshes refer to a geometry and one material or an array of materials.
  - A material maps its set texture slots to textures.
  - Every `dispose()` call is appended to the log of a `Gpu` object.
  - `Walk` is the recursive walk both teardowns perform. It takes a per-node callback and a rule for when to descend.
- `model_manager.dfy` (module `ModelManager`): the cache as a class holding a `map<string, CacheItem>`, plus the manager's `optimizeModel` and `disposeModel`.
- `three_helpers.dfy` (module `ThreeHelpers`): the scene helpers.
- `teardown_comparison.dfy` (module `TeardownComparison`): what `disposeModel` and `disposeObject` release differently on the same tree.
- `format.dfy` (module `Format`): the string helpers as pure functions on `seq<char>`.

The imperative operations are methods. The teardown methods are proved against ghost specification functions: `Walk`, `MaterialsTeardown`, `SlotDisposals` and so on. The lemmas then state what those functions dispose. The cache operations and the two `optimizeModel` versions state their new state directly in their postconditions, in terms of the old state.

Assumptions about three.js:

- `traverse` is a pre-order walk.
- `clone()` makes new nodes, copies the flags and shares geometries and materials.
- `dispose()` only releases GPU memory.

## Model

| member | source | states |
|---|---|---|
| ModelManager.ModelCache.constructor | src/utils/modelManager.ts:16 | the cache map starts empty |
| ModelManager.ModelCache.LoadModel | src/utils/modelManager.ts:24-65 | a hit does not invoke the loader, leaves the cache and the delivered scene untouched, and returns a fresh clone with the cached scene's structure and flags; a miss invokes the loader; a loader failure rejects with its error and leaves the cache unchanged; a success optimises the loaded scene (shadows on meshes only), stores under `url` a fresh clone plus a dispose over the loaded scene, changes no other key, and resolves with the loaded scene; nothing is disposed |
| ModelManager.ModelCache.CacheModel | src/utils/modelManager.ts:73-76 | sets or overwrites the entry for `url` with a fresh clone of the scene and the given dispose target; every other key keeps its entry |
| ModelManager.ModelCache.RemoveModelFromCache | src/utils/modelManager.ts:82-91 | on a present key, appends exactly that entry's `disposeModel` calls once and deletes the key; on an absent key, disposes nothing; the map afterwards is the old map minus `url` |
| ModelManager.LoadThenReload | src/utils/modelManager.ts:26-48 | after a successful load, a second load of the same URL does not invoke the loader, and the cached scene, the first result and the second result are three distinct objects |
| ModelManager.RemoveTwice | src/utils/modelManager.ts:82-91 | removing a URL twice disposes that entry once, and the second call is a no-op |
| ModelManager.OptimizeModel | src/utils/modelManager.ts:98-105 | every mesh in the tree casts and receives shadows afterwards; non-mesh nodes keep their flags; no node's `frustumCulled` changes |
| ModelManager.OptimizeModelTwice | src/utils/modelManager.ts:98-105 | two runs leave exactly the flags one run leaves |
| ModelManager.DisposeModel | src/utils/modelManager.ts:111-138 | the dispose log grows by exactly the pre-order walk over all nodes, each mesh contributing its geometry, then per material the nine slots and the material |
| ModelManager.ModelDisposalsExactly | src/utils/modelManager.ts:111-138 | a call is made by `disposeModel` if and only if some mesh of the tree makes it; non-mesh nodes contribute nothing |
| ModelManager.EveryMeshTornDown | src/utils/modelManager.ts:113-134 | every mesh in the tree has its set geometry, each of its materials, and each texture on one of the nine slots disposed |
| ModelManager.OnlyNineSlotsDisposed | src/utils/modelManager.ts:122-131 | every disposed texture sits on one of the nine slots of a material of a mesh in the tree |
| ModelManager.SameStructureSameDisposals | src/utils/modelManager.ts:43-47 | two trees of the same structure, such as a loaded scene and its cached clone, release the same resources in the same order |
| SceneGraph.Object3D.Clone | src/utils/modelManager.ts:30 | the clone is a valid tree of fresh nodes with the same kinds (shared resources), the same shape and the same flags |
| SceneGraph.Object3D.CloneChildren | src/utils/modelManager.ts:74 | one clone per child, in order, each fresh and matching its child in structure and flags, over pairwise disjoint node sets |
| SceneGraph.DisposeSlots | src/utils/three-helpers.ts:180-191 | the log grows by one texture disposal per listed slot that is set, in slot order |
| SceneGraph.SlotDisposalsExactly | src/utils/three-helpers.ts:180-191 | a slot run disposes a texture if and only if it is set on one of the listed slots, and disposes nothing else |
| SceneGraph.MaterialDisposedLast | src/utils/three-helpers.ts:179-194 | one material's teardown disposes only textures before its final call, which disposes the material itself |
| SceneGraph.MaterialTeardownExactly | src/utils/modelManager.ts:122-133 | one material's teardown disposes exactly the material and the textures set on the listed slots |
| SceneGraph.DisposeMaterials | src/utils/modelManager.ts:121-134 | the log grows by each material's teardown, in array order |
| SceneGraph.MaterialsTeardownExactly | src/utils/modelManager.ts:121-134 | the teardown of a material list disposes a call if and only if one of its materials' teardowns does |
| SceneGraph.DisposeMeshResources | src/utils/modelManager.ts:113-135 | for a mesh, the log grows by its set geometry and then its materials' teardowns; other nodes add nothing |
| SceneGraph.MeshTeardownExactly | src/utils/modelManager.ts:113-135 | a node's teardown disposes exactly a mesh's set geometry, its materials, and the textures on the listed slots of its materials; a non-mesh node's disposes nothing |
| SceneGraph.WalkExactly | src/utils/modelManager.ts:112-137 | a walk makes a call if and only if the callback makes it on some node the walk reaches |
| SceneGraph.ChildWalksExactly | src/utils/three-helpers.ts:158-160 | the walks of the first `k` children make a call if and only if one of them makes it |
| SceneGraph.ReachedEverywhere | src/utils/modelManager.ts:112 | a walk that always descends, as `traverse` does, reaches exactly the nodes of the tree |
| SceneGraph.RootOnly | src/utils/three-helpers.ts:157 | a walk that does not descend from the root reaches the root alone |
| SceneGraph.ReachedInTree | src/utils/three-helpers.ts:148-162 | a walk reaches only nodes of the tree |
| SceneGraph.SameStructureSameWalk | src/utils/modelManager.ts:30 | walks over two trees of the same structure make the same calls in the same order |
| ThreeHelpers.EverySlotListed | src/utils/three-helpers.ts:180-191 | `disposeSingleMaterial` lists every one of the twelve texture slots |
| ThreeHelpers.SelectedKind | src/utils/three-helpers.ts:119-127 | the selected class is never a third kind, and it is the basic material exactly for the name `MeshBasicMaterial` |
| ThreeHelpers.CreateMaterial | src/utils/three-helpers.ts:118-128 | the result is a basic material if and only if the name is `MeshBasicMaterial`, and a standard material for every other name; it holds exactly those given texture properties that its class defines, with the given textures |
| ThreeHelpers.CreatedMaterialSlots | src/utils/three-helpers.ts:120-126 | a standard material keeps every texture parameter except `specularMap`; a basic material drops `bumpMap`, `normalMap`, `displacementMap`, `metalnessMap`, `roughnessMap` and `emissiveMap` |
| ThreeHelpers.CreatedMaterialTeardown | src/utils/three-helpers.ts:118-128 | `disposeSingleMaterial` on a created material disposes a texture if and only if it was given on a slot the material's class defines |
| ThreeHelpers.UnknownTypeFallsBack | src/utils/three-helpers.ts:124-126 | an unknown name gives exactly the material `MeshStandardMaterial` gives |
| ThreeHelpers.OptimizeModel | src/utils/three-helpers.ts:134-142 | every mesh casts and receives shadows and is frustum-culled afterwards; every other node keeps all three flags |
| ThreeHelpers.DisposeSingleMaterial | src/utils/three-helpers.ts:179-194 | the log grows by the textures set on the twelve slots, in source order, then the material |
| ThreeHelpers.SingleMaterialTeardown | src/utils/three-helpers.ts:179-194 | `disposeSingleMaterial` disposes exactly the material and every texture set on it, whichever slot holds it, and disposes the material last |
| ThreeHelpers.DisposeMaterial | src/utils/three-helpers.ts:169-177 | the log grows by `disposeSingleMaterial` of each array element in order, or of the single material |
| ThreeHelpers.DisposeObject | src/utils/three-helpers.ts:148-162 | a missing object disposes nothing; otherwise the log grows by the walk that tears down a mesh's geometry and materials and descends into children only for a `Scene` |
| ThreeHelpers.ObjectDisposalsExactly | src/utils/three-helpers.ts:148-162 | `disposeObject` makes a call if and only if the teardown of some node it reaches makes it |
| ThreeHelpers.NonSceneDisposesItselfOnly | src/utils/three-helpers.ts:151-161 | on a non-`Scene` node only that node is reached: a mesh's own resources are disposed, its children are not visited, and a group disposes nothing |
| ThreeHelpers.ReachedThroughScenes | src/utils/three-helpers.ts:157-161 | any node reached below the root is reached through a root that is a `Scene`, within the walk of one of its children |
| ThreeHelpers.ReachedMeshTornDown | src/utils/three-helpers.ts:151-156 | every mesh `disposeObject` reaches has its set geometry, each material and the texture on each of its set slots disposed |
| TeardownComparison.SkippedSlots | src/utils/modelManager.ts:123-131 | the slots `disposeSingleMaterial` handles and `disposeModel` does not are exactly `lightMap`, `specularMap` and `displacementMap` |
| TeardownComparison.SkippedSlotTextureKept | src/utils/modelManager.ts:122-133 | a texture held only on one of those three slots is disposed by `disposeSingleMaterial` and never by `disposeModel`'s material teardown |
| TeardownComparison.GroupRootContrast | src/utils/three-helpers.ts:157-161 | under a `Group` root, `disposeModel` disposes the geometry of every mesh below, while `disposeObject` disposes nothing |
| TeardownComparison.ScenesReachAll | src/utils/three-helpers.ts:157-161 | when only `Scene` nodes have children, `disposeObject` reaches every node |
| TeardownComparison.ScenesOnlySameGeometries | src/utils/three-helpers.ts:157-161 | when only `Scene` nodes have children, every geometry `disposeModel` disposes is also disposed by `disposeObject` |
| Format.TruncateString | src/utils/format.ts:40-45 | text no longer than `maxLength` is returned unchanged; otherwise the result has length `max(maxLength, 0) + |ellipsis|`, begins with that many characters of the text and ends with the ellipsis |
| Format.Truncate | src/utils/format.ts:40 | without an ellipsis argument the ellipsis is `"..."` |
| Format.ReplaceAll | src/utils/format.ts:54 | a global replace leaves no replaced character when the replacement has none, changes nothing when the character is absent, and never shortens for a non-empty replacement |
| Format.ReplaceAllAppend | src/utils/format.ts:54-58 | a global replace on a concatenation is the concatenation of the replaces |
| Format.AmpEntityStable | src/utils/format.ts:54-58 | `&amp;` passes unchanged through the four replaces after the first |
| Format.LaterEntitiesStable | src/utils/format.ts:55-58 | `&gt;`, `&lt;` and `&quot;` pass unchanged through the replaces after the one that produces each |
| Format.EscapeChar | src/utils/format.ts:54-58 | a character is rewritten if and only if it is one of the five special ones, its entity then starting with `&`; no entity holds `<`, `>`, `"` or `'` |
| Format.EscapeEach | src/utils/format.ts:54-58 | the per-character rewrite is never shorter, holds no `<`, `>`, `"` or `'`, and is the identity on text without special characters |
| Format.EscapeOneChar | src/utils/format.ts:54-58 | `escapeHTML` of one character is that character's entity |
| Format.EscapeAppend | src/utils/format.ts:52-60 | `escapeHTML` of a concatenation is the concatenation of the escapes |
| Format.EscapeHTMLPerCharacter | src/utils/format.ts:54-58 | because `&` is replaced first, the five sequential replaces equal the per-character rewrite, so no produced entity is escaped again |
| Format.EscapeHTMLSafe | src/utils/format.ts:52-60 | the output holds no `<`, `>`, `"` or `'`; text without the five special characters is unchanged; the output is never shorter than the input |
| Format.UnescapeEscapeHTML | src/utils/format.ts:52-60 | `escapeHTML` loses nothing: reading the five entities back gives the original text |
| Format.SanitizeText | src/utils/format.ts:108-115 | `sanitizeText` equals `escapeHTML` on every string, the empty one included |
| Format.CapitalizeFirstLetter | src/utils/format.ts:98-101 | the length is kept, the first character is upper-cased and every other character is kept verbatim; the empty string comes back empty |
| Format.CapitalizeIdempotent | src/utils/format.ts:98-101 | with an idempotent upper-casing, capitalising twice equals capitalising once |

## Left out

- The glTF loader itself, network and decoder I/O, and Draco and KTX2 set-up: each load receives the loader's outcome as a parameter.
- Progress percentages and console output, in both files: these are floating point and log output only.
- Promise and async interleavings: calls are sequential. The code has no de-duplication of in-flight loads, so none is claimed.
- The `options.priority` argument of `loadModel`: it is accepted but never read.
- LRU eviction and capacity limits: the test notes at the end of `src/utils/modelManager.ts` describe them, but the code has none.
- The `dispose` closure of a cache entry is modelled as the scene it closes over (`CacheItem.disposes`). Running it is `disposeModel` on that scene.
- ModelManager.ModelCache.LoadModel: the `try`/`catch` around the hit path is not modelled. A failing `clone()` is outside the model.
- ModelManager.ModelCache.LoadModel: a `cache.get` returning an undefined entry for a present key is not modelled, since the map never stores one.
- ModelManager.ModelCache.CacheModel: overwriting an entry drops the old `dispose` without calling it. The model states the overwrite, and no lemma claims the old scene is released.
- A mesh whose `material` is null or undefined is not modelled. `disposeModel` skips such a mesh's materials, and `disposeMaterial` would throw on it.
- A geometry or texture present but falsy is not modelled. Set slots and geometries are the present ones.
- The three.js library itself is not part of this model. Its `traverse`, `clone` and `dispose` behaviours are the assumptions stated at the head of `scene_graph.dfy`.
- Scene, camera, light and environment-map constructors, `calculateAspectRatio`, `optimizeRendering`, `loadGLTFModel` and renderer creation: these are thin library wrappers or floating-point code.
- `formatNumber`, `formatDate` and `parseNumber`: they depend on locale-specific `Intl` behaviour and float parsing.
- src/utils/sampleModelHelper.ts, src/vite-env.d.ts and the React components, pages and hooks are not part of this model.
- ThreeHelpers.CreateMaterial: only the texture properties are modelled. Colours and other parameters are not. The new material's identity is a parameter, and the console messages (for an unknown name and for a texture parameter the class lacks) are left out. Which texture properties each class defines (`ClassSlots`) is an assumption about three.js, not taken from this repository.
- Format.TruncateString: `maxLength` is an integer. A fractional or NaN `maxLength` is not modelled.
- Format.TruncateString: lengths count characters, where JavaScript counts UTF-16 code units. The two differ only for characters outside the Basic Multilingual Plane.
- Format.CapitalizeFirstLetter: `toUpperCase` is a parameter mapping one character to one character. Real upper-casing can change the length (`ß` becomes `SS`), so length preservation holds only under that abstraction.
- Format.SanitizeText: the JavaScript `!text` test also catches null and undefined. Only strings are modelled.

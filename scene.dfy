/**
 * The object registry of a scene: every object the loader hands over is kept
 * once in `objects`, is also filed by type into `meshes`, `cameras` or
 * `lights`, and the materials of every mesh are gathered, each once, into
 * `materials`. Objects and materials are compared by identity, as the
 * pointers they are in the program.
 */
module Scenes {

  /** The type tag of an object; every tag other than these three is `Other`. */
  datatype ObjectType = Mesh | Camera | Light | Other

  /** A material, known only by its identity. */
  class Material {
    constructor () { }
  }

  /**
   * A scene object. Its name, type tag and (for a mesh) material slots are
   * fixed once decoded; a slot may be empty. `scene` is the back link the
   * registry sets.
   */
  class SceneObject {
    const name: string
    const kind: ObjectType
    const materials: seq<Material?>
    var scene: Scene?

    constructor (name: string, kind: ObjectType, materials: seq<Material?>)
      ensures this.name == name && this.kind == kind && this.materials == materials && scene == null
    {
      this.name := name;
      this.kind := kind;
      this.materials := materials;
      scene := null;
    }
  }

  /** No element occurs twice. */
  ghost predicate Distinct<T>(s: seq<T>)
  {
    forall i, j :: 0 <= i < j < |s| ==> s[i] != s[j]
  }

  /** In a sequence without repeats, an element that occurs occurs exactly once. */
  lemma {:induction false} DistinctOnce<T>(s: seq<T>, x: T)
    requires Distinct(s) && x in s
    ensures multiset(s)[x] == 1
  {
    var k := |s| - 1;
    assert s == s[..k] + [s[k]];
    if s[k] == x {
      assert x !in s[..k];
    } else {
      DistinctOnce(s[..k], x);
    }
  }

  /** The objects of one type, in the order they were added. */
  function OfKind(objects: seq<SceneObject>, kind: ObjectType): seq<SceneObject>
  {
    if objects == [] then []
    else
      var k := |objects| - 1;
      OfKind(objects[..k], kind) + (if objects[k].kind == kind then [objects[k]] else [])
  }

  /** An object is filed under a type exactly when it is registered and has that type. */
  lemma {:induction false} OfKindMembers(objects: seq<SceneObject>, kind: ObjectType, o: SceneObject)
    ensures o in OfKind(objects, kind) <==> o in objects && o.kind == kind
  {
    if objects != [] {
      var k := |objects| - 1;
      OfKindMembers(objects[..k], kind, o);
      assert objects == objects[..k] + [objects[k]];
    }
  }

  /** Registering one more object files it under its own type only. */
  lemma OfKindSnoc(objects: seq<SceneObject>, o: SceneObject, kind: ObjectType)
    ensures OfKind(objects + [o], kind) == OfKind(objects, kind) + (if o.kind == kind then [o] else [])
  {
    assert (objects + [o])[..|objects|] == objects;
  }

  /**
   * The material list after the slots `add` are offered to it: each slot
   * that holds a material not yet listed appends that material.
   */
  function Merge(have: seq<Material>, add: seq<Material?>): seq<Material>
  {
    if add == [] then have
    else
      var k := |add| - 1;
      var m := Merge(have, add[..k]);
      if add[k] != null && add[k] !in m then m + [add[k]] else m
  }

  /**
   * Merging keeps the listed materials in place and in order, adds exactly
   * the materials of the offered slots, and repeats none.
   */
  lemma {:induction false} MergeShape(have: seq<Material>, add: seq<Material?>)
    ensures |have| <= |Merge(have, add)| && Merge(have, add)[..|have|] == have
    ensures forall m :: m in Merge(have, add) <==> m in have || m in add
    ensures Distinct(have) ==> Distinct(Merge(have, add))
  {
    if add != [] {
      var k := |add| - 1;
      MergeShape(have, add[..k]);
      assert add == add[..k] + [add[k]];
    }
  }

  /** The materials of the given meshes, gathered mesh by mesh. */
  function MaterialsOf(meshes: seq<SceneObject>): seq<Material>
  {
    if meshes == [] then []
    else
      var k := |meshes| - 1;
      Merge(MaterialsOf(meshes[..k]), meshes[k].materials)
  }

  /** The gathered materials repeat none, and are exactly the materials some mesh holds. */
  lemma {:induction false} MaterialsOfShape(meshes: seq<SceneObject>)
    ensures Distinct(MaterialsOf(meshes))
    ensures forall m :: m in MaterialsOf(meshes) <==> exists i :: 0 <= i < |meshes| && m in meshes[i].materials
  {
    if meshes != [] {
      var k := |meshes| - 1;
      MaterialsOfShape(meshes[..k]);
      MergeShape(MaterialsOf(meshes[..k]), meshes[k].materials);
      forall m ensures m in MaterialsOf(meshes) <==> exists i :: 0 <= i < |meshes| && m in meshes[i].materials {
        if m in MaterialsOf(meshes) && m !in meshes[k].materials {
          var i :| 0 <= i < k && m in meshes[..k][i].materials;
          assert m in meshes[i].materials;
        }
        if (exists i :: 0 <= i < |meshes| && m in meshes[i].materials) && m !in meshes[k].materials {
          var i :| 0 <= i < |meshes| && m in meshes[i].materials;
          assert i < k && m in meshes[..k][i].materials;
        }
      }
    }
  }

  /** Gathering the materials of one more mesh merges its slots into the list. */
  lemma MaterialsOfSnoc(meshes: seq<SceneObject>, o: SceneObject)
    ensures MaterialsOf(meshes + [o]) == Merge(MaterialsOf(meshes), o.materials)
  {
    assert (meshes + [o])[..|meshes|] == meshes;
  }

  /** The first object with the given name, or null when none has it. */
  function FirstNamed(vec: seq<SceneObject>, name: string): (r: SceneObject?)
    ensures r != null ==> r in vec && r.name == name
    ensures r == null <==> forall i :: 0 <= i < |vec| ==> vec[i].name != name
    ensures forall i :: 0 <= i < |vec| && vec[i].name == name ==>
      r != null && exists j :: 0 <= j <= i && vec[j] == r
  {
    if vec == [] then null
    else if vec[0].name == name then vec[0]
    else FirstNamed(vec[1..], name)
  }

  /**
   * `getFromVecByName`: scans the list from the front and returns the first
   * object with the given name, or null.
   */
  method GetFromVecByName(vec: seq<SceneObject>, name: string) returns (r: SceneObject?)
    ensures r == FirstNamed(vec, name)
  {
    var i := 0;
    while i < |vec|
      invariant 0 <= i <= |vec|
      invariant FirstNamed(vec, name) == FirstNamed(vec[i..], name)
    {
      if vec[i].name == name {
        return vec[i];
      }
      assert vec[i..][1..] == vec[i + 1..];
      i := i + 1;
    }
    return null;
  }

  /** `getFromVecByIndex`: the object at that position, or null past the end. */
  function GetFromVecByIndex(vec: seq<SceneObject>, index: nat): (r: SceneObject?)
    ensures r != null <==> index < |vec|
    ensures r != null ==> r == vec[index]
  {
    if index < |vec| then vec[index] else null
  }

  /**
   * The lists of a registry agree: every object is registered once, the
   * typed lists are the registered objects of their type in registration
   * order, and the materials are those of the meshes, each once.
   */
  ghost predicate Registry(objects: seq<SceneObject>, meshes: seq<SceneObject>, cameras: seq<SceneObject>,
                           lights: seq<SceneObject>, materials: seq<Material>)
  {
    && Distinct(objects)
    && meshes == OfKind(objects, Mesh)
    && cameras == OfKind(objects, Camera)
    && lights == OfKind(objects, Light)
    && materials == MaterialsOf(meshes)
  }

  /**
   * Registering a new object, filing it under its type and merging a mesh's
   * materials keeps the lists of a registry in agreement.
   */
  lemma RegistryAdd(objects: seq<SceneObject>, meshes: seq<SceneObject>, cameras: seq<SceneObject>,
                    lights: seq<SceneObject>, materials: seq<Material>, obj: SceneObject)
    requires Registry(objects, meshes, cameras, lights, materials) && obj !in objects
    ensures Registry(objects + [obj],
                     meshes + (if obj.kind == Mesh then [obj] else []),
                     cameras + (if obj.kind == Camera then [obj] else []),
                     lights + (if obj.kind == Light then [obj] else []),
                     if obj.kind == Mesh then Merge(materials, obj.materials) else materials)
  {
    OfKindSnoc(objects, obj, Mesh);
    OfKindSnoc(objects, obj, Camera);
    OfKindSnoc(objects, obj, Light);
    if obj.kind == Mesh {
      MaterialsOfSnoc(meshes, obj);
    } else {
      assert meshes + [] == meshes;
    }
  }

  /**
   * A scene: the registry of its objects, by type and with their materials,
   * and the camera it is viewed through.
   */
  class Scene {
    var name: string
    var activeCamera: SceneObject?
    var objects: seq<SceneObject>
    var meshes: seq<SceneObject>
    var cameras: seq<SceneObject>
    var lights: seq<SceneObject>
    var materials: seq<Material>

    /**
     * Every object is registered once; the typed lists are the registered
     * objects of their type in registration order; the materials are those
     * of the meshes, each once; the active camera, if any, is registered.
     */
    ghost predicate Valid()
      reads this
    {
      && Registry(objects, meshes, cameras, lights, materials)
      && (activeCamera != null ==> activeCamera in objects)
    }

    constructor ()
      ensures Valid()
      ensures name == "unnamed scene" && activeCamera == null
      ensures objects == [] && meshes == [] && cameras == [] && lights == [] && materials == []
    {
      name := "unnamed scene";
      activeCamera := null;
      objects, meshes, cameras, lights, materials := [], [], [], [], [];
    }

    /** `hasObject`: whether the object is registered. */
    method HasObject(obj: SceneObject) returns (b: bool)
      ensures b <==> obj in objects
    {
      b := obj in objects;
    }

    /** The loop of `addObject` over a mesh's material slots. */
    method MergeMaterials(slots: seq<Material?>)
      modifies this`materials
      ensures materials == Merge(old(materials), slots)
    {
      var i := 0;
      while i < |slots|
        invariant 0 <= i <= |slots|
        invariant materials == Merge(old(materials), slots[..i])
      {
        assert slots[..i + 1][..i] == slots[..i];
        var m := slots[i];
        if m != null && m !in materials {
          materials := materials + [m];
        }
        i := i + 1;
      }
      assert slots[..i] == slots;
    }

    /** The list updates of `addObject` for an object not yet registered. */
    method Register(obj: SceneObject)
      modifies this`objects, this`meshes, this`cameras, this`lights, this`materials
      ensures objects == old(objects) + [obj]
      ensures meshes == old(meshes) + (if obj.kind == Mesh then [obj] else [])
      ensures cameras == old(cameras) + (if obj.kind == Camera then [obj] else [])
      ensures lights == old(lights) + (if obj.kind == Light then [obj] else [])
      ensures materials == (if obj.kind == Mesh then Merge(old(materials), obj.materials) else old(materials))
    {
      objects := objects + [obj];
      match obj.kind {
        case Mesh =>
          meshes := meshes + [obj];
          MergeMaterials(obj.materials);
        case Camera =>
          cameras := cameras + [obj];
        case Light =>
          lights := lights + [obj];
        case Other =>
      }
    }

    /**
     * `addObject`: an object already registered changes nothing. Otherwise it
     * is appended to `objects` and to the list of its type, a mesh's
     * materials are merged in, and the object is linked back to this scene.
     */
    method AddObject(obj: SceneObject)
      requires Valid()
      modifies this`objects, this`meshes, this`cameras, this`lights, this`materials, obj`scene
      ensures Valid() && obj in objects
      ensures old(obj in objects) ==>
        && objects == old(objects) && meshes == old(meshes) && cameras == old(cameras)
        && lights == old(lights) && materials == old(materials) && obj.scene == old(obj.scene)
      ensures old(obj !in objects) ==>
        && objects == old(objects) + [obj]
        && meshes == old(meshes) + (if obj.kind == Mesh then [obj] else [])
        && cameras == old(cameras) + (if obj.kind == Camera then [obj] else [])
        && lights == old(lights) + (if obj.kind == Light then [obj] else [])
        && materials == (if obj.kind == Mesh then Merge(old(materials), obj.materials) else old(materials))
        && obj.scene == this
    {
      if obj in objects {
        return;
      }
      RegistryAdd(objects, meshes, cameras, lights, materials, obj);
      Register(obj);
      obj.scene := this;
    }

    /** `getObject(name)`: the first registered object with that name, or null. */
    method GetObjectByName(name: string) returns (r: SceneObject?)
      ensures r == FirstNamed(objects, name)
    {
      r := GetFromVecByName(objects, name);
    }

    /** `getObject(index)`: the object registered at that position, or null. */
    method GetObjectByIndex(index: nat) returns (r: SceneObject?)
      ensures r != null <==> index < |objects|
      ensures r != null ==> r == objects[index]
    {
      r := GetFromVecByIndex(objects, index);
    }

    /** `getMesh(name)`: the first mesh with that name, or null. */
    method GetMeshByName(name: string) returns (r: SceneObject?)
      requires Valid()
      ensures r == FirstNamed(OfKind(objects, Mesh), name)
      ensures r != null ==> r in objects && r.kind == Mesh && r.name == name
    {
      r := GetFromVecByName(meshes, name);
      if r != null {
        OfKindMembers(objects, Mesh, r);
      }
    }

    /** `getMesh(index)`: the mesh at that position among the meshes, or null. */
    method GetMeshByIndex(index: nat) returns (r: SceneObject?)
      requires Valid()
      ensures r != null <==> index < |OfKind(objects, Mesh)|
      ensures r != null ==> r == OfKind(objects, Mesh)[index] && r in objects && r.kind == Mesh
    {
      r := GetFromVecByIndex(meshes, index);
      if r != null {
        OfKindMembers(objects, Mesh, r);
      }
    }

    /** `getCamera(name)`: the first camera with that name, or null. */
    method GetCameraByName(name: string) returns (r: SceneObject?)
      requires Valid()
      ensures r == FirstNamed(OfKind(objects, Camera), name)
      ensures r != null ==> r in objects && r.kind == Camera && r.name == name
    {
      r := GetFromVecByName(cameras, name);
      if r != null {
        OfKindMembers(objects, Camera, r);
      }
    }

    /** `getCamera(index)`: the camera at that position among the cameras, or null. */
    method GetCameraByIndex(index: nat) returns (r: SceneObject?)
      requires Valid()
      ensures r != null <==> index < |OfKind(objects, Camera)|
      ensures r != null ==> r == OfKind(objects, Camera)[index] && r in objects && r.kind == Camera
    {
      r := GetFromVecByIndex(cameras, index);
      if r != null {
        OfKindMembers(objects, Camera, r);
      }
    }

    /** `getLight(name)`: the first light with that name, or null. */
    method GetLightByName(name: string) returns (r: SceneObject?)
      requires Valid()
      ensures r == FirstNamed(OfKind(objects, Light), name)
      ensures r != null ==> r in objects && r.kind == Light && r.name == name
    {
      r := GetFromVecByName(lights, name);
      if r != null {
        OfKindMembers(objects, Light, r);
      }
    }

    /** `getLight(index)`: the light at that position among the lights, or null. */
    method GetLightByIndex(index: nat) returns (r: SceneObject?)
      requires Valid()
      ensures r != null <==> index < |OfKind(objects, Light)|
      ensures r != null ==> r == OfKind(objects, Light)[index] && r in objects && r.kind == Light
    {
      r := GetFromVecByIndex(lights, index);
      if r != null {
        OfKindMembers(objects, Light, r);
      }
    }

    /**
     * `setActiveCamera`: the camera is registered as `addObject` would, and
     * becomes the one the scene is viewed through.
     */
    method SetActiveCamera(cam: SceneObject)
      requires Valid() && cam.kind == Camera
      modifies this`objects, this`meshes, this`cameras, this`lights, this`materials, this`activeCamera, cam`scene
      ensures Valid() && cam in objects && activeCamera == cam
      ensures objects == old(objects) + (if cam in old(objects) then [] else [cam])
      ensures cameras == old(cameras) + (if cam in old(objects) then [] else [cam])
      ensures meshes == old(meshes) && lights == old(lights) && materials == old(materials)
      ensures cam.scene == if old(cam in objects) then old(cam.scene) else this
    {
      AddObject(cam);
      activeCamera := cam;
    }
  }
}

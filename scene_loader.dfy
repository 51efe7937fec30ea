/**
  The loader registry built by the default export of src/scene_loader.js:
  a 2d and a 3d table from extension to loader, the caller's extra loaders
  merged into the 3d table, dispatch on the extension, and enumeration of
  the registered extensions.
*/
module SceneLoader {
  import opened Wrappers
  import opened Extension
  import opened Tables

  /** The loader function a table entry holds. What a loader does is not modelled. */
  datatype Loader =
    | Dxf | Svg
    | Tds | Assimp | Fbx | GCode | Gltf | Obj | Stl | Solidworks
    | Supplied(id: nat)  // a loader the caller passes in `extraLoaders`

  const BUILT_IN_2D: Table<Loader> :=
    Table(["dxf", "svg"], map["dxf" := Some(Dxf), "svg" := Some(Svg)])

  const BUILT_IN_3D: Table<Loader> :=
    Table(["3ds", "assimp", "fbx", "gcode", "gltf", "obj", "stl", "sldprt"],
          map["3ds" := Some(Tds), "assimp" := Some(Assimp), "fbx" := Some(Fbx),
              "gcode" := Some(GCode), "gltf" := Some(Gltf), "obj" := Some(Obj),
              "stl" := Some(Stl), "sldprt" := Some(Solidworks)])

  /** The object `{ '2d': [...], '3d': [...] }` that `availableLoaders()` returns. */
  datatype Available = Available(twoD: seq<string>, threeD: seq<string>)

  /** The own properties of `Object.prototype`, which a read `obj[k]` finds on every plain object. */
  const OBJECT_PROTOTYPE_MEMBERS: set<string> :=
    {"constructor", "__proto__", "__defineGetter__", "__defineSetter__",
     "__lookupGetter__", "__lookupSetter__", "hasOwnProperty", "isPrototypeOf",
     "propertyIsEnumerable", "toLocaleString", "toString", "valueOf"}

  /** What a JavaScript read `obj[k]` yields, as `load` tests it for truthiness and calls it. */
  datatype Callee = Falsy | Entry(loader: Loader) | Inherited(name: string)

  /** `t[k]` with JavaScript's [[Get]]: an own property first, then `Object.prototype`. */
  function GetInherited(t: Table<Loader>, k: string): Callee {
    if k in t.props then (if t.props[k].Some? then Entry(t.props[k].value) else Falsy)
    else if k in OBJECT_PROTOTYPE_MEMBERS then Inherited(k)
    else Falsy
  }

  class Registry {
    var twoD: Table<Loader>
    var threeD: Table<Loader>

    ghost predicate Valid()
      reads this
    {
      twoD.Valid() && threeD.Valid()
    }

    /**
      The factory: the built-in tables, then `Object.assign(loaders['3d'], extraLoaders)`.
      `None` stands for an omitted (or `null`) `extraLoaders`, which `Object.assign` skips.
    */
    constructor (extraLoaders: Option<Table<Loader>>)
      requires extraLoaders.Some? ==> extraLoaders.value.Valid()
      ensures Valid()
      ensures twoD == BUILT_IN_2D
      ensures threeD == if extraLoaders.Some? then BUILT_IN_3D.Assign(extraLoaders.value) else BUILT_IN_3D
    {
      twoD := BUILT_IN_2D;
      threeD := BUILT_IN_3D;
      new;
      if extraLoaders.Some? {
        Merge(extraLoaders.value);
      }
    }

    /**
      `Object.assign(this['3d'], extra)`: copies the own keys of `extra` one at a time.
      What the merged table reads and lists is stated by `AssignGet` and `AssignKeys`.
    */
    method Merge(extra: Table<Loader>)
      requires Valid() && extra.Valid()
      modifies this`threeD
      ensures Valid()
      ensures threeD == old(threeD).Assign(extra)
      ensures twoD == old(twoD)
    {
      ghost var before := threeD;
      var i := 0;
      while i < |extra.keys|
        invariant i <= |extra.keys|
        invariant threeD == before.AssignPrefix(extra, i)
      {
        var k := extra.keys[i];
        threeD := threeD.Put(k, extra.Get(k));
        i := i + 1;
      }
      AssignValid(before, extra);
    }

    /**
      `load(src)` with own-property lookup: the loader it invokes, or `None`
      when it resolves to `null`.
    */
    function Load(src: string): Option<Loader>
      reads this
    {
      var ext := GetExtension(src);
      var obj := threeD.Get(ext);
      if obj.Some? then obj else twoD.Get(ext)
    }

    /** `load(src)` as written: the tables are read with [[Get]], prototype included. */
    function LoadAsWritten(src: string): Callee
      reads this
    {
      var ext := GetExtension(src);
      var obj := GetInherited(threeD, ext);
      if !obj.Falsy? then obj else GetInherited(twoD, ext)
    }

    /** `availableLoaders()`: `Object.keys` of both tables. */
    function AvailableLoaders(): (r: Available)
      reads this
      requires Valid()
      ensures Distinct(r.twoD) && Distinct(r.threeD)
      ensures forall k :: k in r.twoD <==> k in twoD.props
      ensures forall k :: k in r.threeD <==> k in threeD.props
      ensures r.twoD == twoD.keys && r.threeD == threeD.keys
    {
      Available(twoD.keys, threeD.keys)
    }
  }

  /** A truthy 3d entry wins, even when the 2d table has the extension too. */
  lemma LoadPrefers3d(reg: Registry, src: string)
    requires reg.threeD.Get(GetExtension(src)).Some?
    ensures reg.Load(src) == reg.threeD.Get(GetExtension(src))
  {
  }

  /** Without a truthy 3d entry the 2d table decides. */
  lemma LoadFallsBackTo2d(reg: Registry, src: string)
    requires reg.threeD.Get(GetExtension(src)) == None
    ensures reg.Load(src) == reg.twoD.Get(GetExtension(src))
  {
  }

  /** `load` resolves to `null` exactly when neither table has a truthy entry for the extension. */
  lemma LoadNull(reg: Registry, src: string)
    ensures reg.Load(src) == None <==>
      reg.threeD.Get(GetExtension(src)) == None && reg.twoD.Get(GetExtension(src)) == None
  {
  }

  /** Sources that differ only in letter case reach the same loader. */
  lemma LoadCaseInsensitive(reg: Registry, src1: string, src2: string)
    requires Lower(src1) == Lower(src2)
    ensures reg.Load(src1) == reg.Load(src2)
  {
    ExtensionCaseInsensitive(src1, src2);
  }

  /** `load(stem + "." + name)` dispatches on `name` lower-cased, 3d first. */
  lemma LoadOfNamedFile(reg: Registry, stem: string, name: string)
    requires '.' !in name
    ensures reg.Load(stem + "." + name) ==
      if reg.threeD.Get(Lower(name)).Some? then reg.threeD.Get(Lower(name)) else reg.twoD.Get(Lower(name))
  {
    ExtensionOfName(stem, name);
  }

  /**
    After the factory merged `extra`: a truthy caller entry is invoked, a falsy one
    hides the built-in 3d loader, and an extension the caller did not name
    dispatches as in the built-in tables.
  */
  lemma LoadAfterMerge(reg: Registry, extra: Table<Loader>, src: string)
    requires extra.Valid()
    requires reg.twoD == BUILT_IN_2D && reg.threeD == BUILT_IN_3D.Assign(extra)
    ensures var ext := GetExtension(src);
      && (extra.Get(ext).Some? ==> reg.Load(src) == extra.Get(ext))
      && (ext in extra.props && extra.Get(ext) == None ==> reg.Load(src) == BUILT_IN_2D.Get(ext))
      && (ext !in extra.props ==>
            reg.Load(src) == if BUILT_IN_3D.Get(ext).Some? then BUILT_IN_3D.Get(ext) else BUILT_IN_2D.Get(ext))
  {
    AssignGet(BUILT_IN_3D, extra, GetExtension(src));
  }

  /**
    After the factory merged `extra`: the built-in 3d keys keep their order and
    the caller's new keys follow in the caller's order; the 2d keys are the built-in ones.
  */
  lemma AvailableAfterMerge(reg: Registry, extra: Table<Loader>)
    requires reg.Valid() && extra.Valid()
    requires reg.twoD == BUILT_IN_2D && reg.threeD == BUILT_IN_3D.Assign(extra)
    ensures reg.AvailableLoaders().twoD == ["dxf", "svg"]
    ensures reg.AvailableLoaders().threeD ==
      ["3ds", "assimp", "fbx", "gcode", "gltf", "obj", "stl", "sldprt"]
        + NewKeys(extra.keys, BUILT_IN_3D.props.Keys)
  {
    AssignKeys(BUILT_IN_3D, extra);
  }

  /** With the built-in tables, `*.xyz` resolves to `null` and `*.OBJ` reaches the OBJ loader. */
  lemma DefaultDispatch(reg: Registry, stem: string)
    requires reg.twoD == BUILT_IN_2D && reg.threeD == BUILT_IN_3D
    ensures reg.Load(stem + ".xyz") == None
    ensures reg.Load(stem + ".OBJ") == Some(Obj)
  {
    ExtensionOfName(stem, "xyz");
    assert "xyz" == [LowerChar('x')] + [LowerChar('y')] + [LowerChar('z')];
    assert Lower("xyz") == "xyz";
    assert stem + "." + "xyz" == stem + ".xyz";
    ExtensionOfName(stem, "OBJ");
    assert Lower("OBJ") == "obj";
    assert stem + "." + "OBJ" == stem + ".OBJ";
  }

  /** Of the `Object.prototype` members, only these two can be an extension (which is lower-case). */
  lemma ReachableMembers(name: string)
    requires name in OBJECT_PROTOTYPE_MEMBERS && IsLowerCase(name)
    ensures name == "constructor" || name == "__proto__"
  {
    assert IsUpper("__defineGetter__"[8]);
    assert IsUpper("__defineSetter__"[8]);
    assert IsUpper("__lookupGetter__"[8]);
    assert IsUpper("__lookupSetter__"[8]);
    assert IsUpper("hasOwnProperty"[3]);
    assert IsUpper("isPrototypeOf"[2]);
    assert IsUpper("propertyIsEnumerable"[8]);
    assert IsUpper("toLocaleString"[2]);
    assert IsUpper("toString"[2]);
    assert IsUpper("valueOf"[5]);
  }

  /** Away from "constructor" and "__proto__", `load` as written agrees with own-property lookup. */
  lemma AsWrittenAgreesElsewhere(reg: Registry, src: string)
    requires GetExtension(src) != "constructor" && GetExtension(src) != "__proto__"
    ensures reg.LoadAsWritten(src) == match reg.Load(src) case None => Falsy case Some(l) => Entry(l)
  {
    var ext := GetExtension(src);
    if ext in OBJECT_PROTOTYPE_MEMBERS {
      ReachableMembers(ext);
    }
  }

  /**
    `load(stem + "." + name)` for a reachable `Object.prototype` member `name` as written
    finds the inherited member: `Object` for "constructor" (which `load` then calls with `src`) and
    `Object.prototype` itself for "__proto__" (not callable, so the call rejects), where an
    extension no table has should resolve to `null`.
  */
  lemma PrototypeLookupFinding(reg: Registry, stem: string, name: string)
    requires name == "constructor" || name == "__proto__"
    requires name !in reg.threeD.props && name !in reg.twoD.props
    ensures reg.LoadAsWritten(stem + "." + name) == Inherited(name)
    ensures reg.Load(stem + "." + name) == None
  {
    ExtensionOfName(stem, name);
    LowerOfLowerCase(name);
  }

  /** With the built-in tables, both inherited names are reached as written and resolve to `null` when corrected. */
  lemma BuiltInPrototypeFinding(reg: Registry, stem: string)
    requires reg.twoD == BUILT_IN_2D && reg.threeD == BUILT_IN_3D
    ensures reg.LoadAsWritten(stem + ".constructor") == Inherited("constructor")
    ensures reg.Load(stem + ".constructor") == None
    ensures reg.LoadAsWritten(stem + ".__proto__") == Inherited("__proto__")
    ensures reg.Load(stem + ".__proto__") == None
  {
    BuiltInsLackPrototypeNames();
    PrototypeLookupFinding(reg, stem, "constructor");
    assert stem + "." + "constructor" == stem + ".constructor";
    PrototypeLookupFinding(reg, stem, "__proto__");
    assert stem + "." + "__proto__" == stem + ".__proto__";
  }

  /** The built-in tables are well formed, and every listed key holds a truthy loader and no other key does. */
  lemma BuiltInTablesWellFormed()
    ensures BUILT_IN_2D.Valid() && BUILT_IN_3D.Valid()
    ensures forall k :: BUILT_IN_2D.Get(k).Some? <==> k in BUILT_IN_2D.keys
    ensures forall k :: BUILT_IN_3D.Get(k).Some? <==> k in BUILT_IN_3D.keys
  {
  }

  /** The built-in tables have neither "constructor" nor "__proto__" as an own key. */
  lemma BuiltInsLackPrototypeNames()
    ensures "constructor" !in BUILT_IN_2D.props && "constructor" !in BUILT_IN_3D.props
    ensures "__proto__" !in BUILT_IN_2D.props && "__proto__" !in BUILT_IN_3D.props
  {
  }
}

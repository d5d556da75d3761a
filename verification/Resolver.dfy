/** Name resolution over one file's semantic model and the harvested packages
    (src/resolve.rs, without script contexts): the module index, the tiers one by
    one, and `Resolve`, which returns the first tier's answer. */
module Resolver {
  import opened Wrappers
  import opened SemanticModel

  datatype Namespace = Value | Macro

  type ModulePath = seq<string>

  // ---- The harvested library ----

  datatype Export = Export(name: string, exported: bool)

  /** One flag for each method: whether it is generated. */
  datatype FunctionGroup = FunctionGroup(name: string, generated: seq<bool>)

  datatype ModuleUsing = ModuleUsing(leadingDots: nat, components: seq<string>)

  datatype ModuleIndex = ModuleIndex(
    name: string,
    exports: seq<Export>,
    functions: seq<FunctionGroup>,
    types: seq<string>,
    consts: seq<string>,
    macros: seq<string>,
    submodules: seq<ModuleIndex>,
    usings: seq<ModuleUsing>,
    importedNames: seq<string>)

  datatype PackageIndex = PackageIndex(name: string, root: ModuleIndex)

  type Packages = map<string, PackageIndex>

  function FindSubmodule(subs: seq<ModuleIndex>, name: string): Option<ModuleIndex> {
    if subs == [] then None else if subs[0].name == name then Some(subs[0]) else FindSubmodule(subs[1..], name)
  }

  function ModuleAt(root: ModuleIndex, path: ModulePath): Option<ModuleIndex>
    decreases |path|
  {
    if path == [] then Some(root)
    else
      match FindSubmodule(root.submodules, path[0])
      case None => None
      case Some(sub) => ModuleAt(sub, path[1..])
  }

  predicate InNamespace(name: string, ns: Namespace) {
    (name != "" && name[0] == '@') == ns.Macro?
  }

  function WantedName(name: string, ns: Namespace): string {
    if ns.Macro? then "@" + name else name
  }

  predicate ModuleExports(m: ModuleIndex, wanted: string) {
    exists i :: 0 <= i < |m.exports| && m.exports[i] == Export(wanted, true)
  }

  function ExportedNames(exports: seq<Export>, ns: Namespace): seq<string> {
    if exports == [] then []
    else
      (if exports[0].exported && InNamespace(exports[0].name, ns) then [exports[0].name] else [])
      + ExportedNames(exports[1..], ns)
  }

  function GroupNames(groups: seq<FunctionGroup>): seq<string> {
    if groups == [] then [] else [groups[0].name] + GroupNames(groups[1..])
  }

  predicate DeclaresTypeOrConst(m: ModuleIndex, wanted: string) {
    wanted in m.types || wanted in m.consts
  }

  predicate ModuleDefines(m: ModuleIndex, wanted: string, ns: Namespace) {
    match ns
    case Value => (exists i :: 0 <= i < |m.functions| && m.functions[i].name == wanted) || DeclaresTypeOrConst(m, wanted)
    case Macro => wanted in m.macros
  }

  predicate DeclaresFunction(m: ModuleIndex, wanted: string) {
    exists i :: 0 <= i < |m.functions| && m.functions[i].name == wanted && false in m.functions[i].generated
  }

  predicate ModuleImports(m: ModuleIndex, wanted: string) {
    wanted in m.importedNames
  }

  function DefinedNames(m: ModuleIndex, ns: Namespace): seq<string> {
    match ns
    case Value => GroupNames(m.functions) + m.types + m.consts
    case Macro => m.macros
  }

  /** The name of a binding as typed in the namespace, if it lives there. Macro
      definitions are stored bare, imported macros with their sigil. */
  function NamespacedName(b: Binding, ns: Namespace): Option<string> {
    var sigil := b.name != "" && b.name[0] == '@';
    match ns
    case Value => if b.kind.Macro? || (b.kind.Import? && sigil) then None else Some(b.name)
    case Macro =>
      if b.kind.Macro? then Some("@" + b.name) else if b.kind.Import? && sigil then Some(b.name) else None
  }

  function Join(components: seq<string>): string {
    if components == [] then ""
    else if |components| == 1 then components[0]
    else components[0] + "." + Join(components[1..])
  }

  // ---- Answers ----

  datatype Resolution =
    | ToBinding(b: BindingId)
    | ToWorkspace(path: ModulePath, name: string)
    | ToWorkspaceImport(name: string)
    | ToUsing(mod: string, name: string)
    | ToSystem(mod: string, name: string)
    | Unresolved

  datatype Source = InFile(b: BindingId) | InWorkspace(mod: string) | ByUsing(mod: string) | BySystem(mod: string)

  datatype Candidate = Candidate(name: string, source: Source)

  /** The workspace package around the file and the module its top-level items
      splice into. */
  datatype WorkspaceCtx = WorkspaceCtx(pkg: PackageIndex, host: ModulePath)

  /** What a whole-module `using` or an implicit module provides: the path it was
      named by and the module it leads to. */
  datatype Provided = Provided(components: seq<string>, mod: ModuleIndex)

  datatype Resolver = Resolver(model: SemanticModel, packages: Packages, workspace: Option<WorkspaceCtx>)
  {
    ghost predicate Valid() {
      model.Valid()
    }

    function FullModulePath(w: WorkspaceCtx, scope: ScopeId): ModulePath
      requires Valid() && scope < |model.scopes|
    {
      w.host + model.EnclosingModulePath(scope)
    }

    // ---- Tiers 1 and 2: bindings of the file ----

    /** The last of the first `n` bindings of a scope with the wanted name. */
    function LastNamed(bindings: seq<BindingId>, wanted: string, ns: Namespace): (r: Option<BindingId>)
      requires forall k :: 0 <= k < |bindings| ==> bindings[k] < |model.bindings|
      ensures r.Some? ==> r.value < |model.bindings|
    {
      if bindings == [] then None
      else
        var b := bindings[|bindings| - 1];
        if NamespacedName(model.bindings[b], ns) == Some(wanted) then Some(b)
        else LastNamed(bindings[..|bindings| - 1], wanted, ns)
    }

    function BindingFrom(scope: ScopeId, wanted: string, ns: Namespace): Option<BindingId>
      requires Valid() && scope < |model.scopes|
      decreases scope
    {
      match LastNamed(model.scopes[scope].bindings, wanted, ns)
      case Some(b) => Some(b)
      case None =>
        var next := model.Outward(scope);
        if next.Some? then BindingFrom(next.value, wanted, ns) else None
    }

    function FileBinding(wanted: string, offset: nat, ns: Namespace): Option<BindingId>
      requires Valid()
    {
      BindingFrom(model.ScopeAt(offset), wanted, ns)
    }

    method FindFileBinding(wanted: string, offset: nat, ns: Namespace) returns (r: Option<BindingId>)
      requires Valid()
      ensures r == FileBinding(wanted, offset, ns)
    {
      var at := model.FindScopeAt(offset);
      var cursor: Option<ScopeId> := Some(at);
      while cursor.Some?
        invariant cursor.Some? ==> cursor.value < |model.scopes|
        invariant FileBinding(wanted, offset, ns) == if cursor.Some? then BindingFrom(cursor.value, wanted, ns) else None
        decreases if cursor.Some? then cursor.value + 1 else 0
      {
        var hit := LastNamed(model.scopes[cursor.value].bindings, wanted, ns);
        if hit.Some? {
          return hit;
        }
        cursor := model.Outward(cursor.value);
      }
      r := None;
    }

    // ---- Tier 3: whole-module usings ----

    predicate Reaches(at: ScopeId, declared: ScopeId)
      requires Valid() && at < |model.scopes|
      decreases at
    {
      at == declared || (model.Outward(at).Some? && Reaches(model.Outward(at).value, declared))
    }

    method ScopeVisible(declared: ScopeId, at: ScopeId) returns (r: bool)
      requires Valid() && at < |model.scopes|
      ensures r == Reaches(at, declared)
    {
      var cursor: Option<ScopeId> := Some(at);
      while cursor.Some?
        invariant cursor.Some? ==> cursor.value < |model.scopes|
        invariant Reaches(at, declared) == (cursor.Some? && Reaches(cursor.value, declared))
        decreases if cursor.Some? then cursor.value + 1 else 0
      {
        if cursor.value == declared {
          return true;
        }
        if model.scopes[cursor.value].kind.IsGlobal() {
          return false;
        }
        cursor := model.scopes[cursor.value].parent;
      }
      r := false;
    }

    function Library(components: seq<string>): Option<ModuleIndex>
      requires components != []
    {
      if components[0] !in packages then None else ModuleAt(packages[components[0]].root, components[1..])
    }

    function UsingModule(load: ModuleLoad, at: ScopeId): (r: Option<ModuleIndex>)
      requires Valid() && at < |model.scopes|
      ensures r.Some? ==> load.components != []
    {
      if !load.kind.Using? || load.hasItems || load.leadingDots != 0 || load.components == [] then None
      else if !Reaches(at, load.scope) then None
      else Library(load.components)
    }

    function ResolveUsing(u: ModuleUsing): (r: Option<ModuleIndex>)
      ensures r.Some? ==> u.components != []
    {
      if u.leadingDots != 0 || u.components == [] then None else Library(u.components)
    }

    function FirstLoad(loads: seq<ModuleLoad>, at: ScopeId, wanted: string): Option<Provided>
      requires Valid() && at < |model.scopes|
    {
      if loads == [] then None
      else
        var m := UsingModule(loads[0], at);
        if m.Some? && ModuleExports(m.value, wanted) then Some(Provided(loads[0].components, m.value))
        else FirstLoad(loads[1..], at, wanted)
    }

    function UsingExport(wanted: string, offset: nat): Option<Provided>
      requires Valid()
    {
      FirstLoad(model.loads, model.ScopeAt(offset), wanted)
    }

    function FirstUsing(usings: seq<ModuleUsing>, wanted: string): Option<Provided> {
      if usings == [] then None
      else
        var m := ResolveUsing(usings[0]);
        if m.Some? && ModuleExports(m.value, wanted) then Some(Provided(usings[0].components, m.value))
        else FirstUsing(usings[1..], wanted)
    }

    /** The workspace module a position belongs to. */
    function HostModule(w: WorkspaceCtx, offset: nat): Option<ModuleIndex>
      requires Valid()
    {
      ModuleAt(w.pkg.root, FullModulePath(w, model.ScopeAt(offset)))
    }

    function WorkspaceUsingExport(w: WorkspaceCtx, wanted: string, offset: nat): Option<Provided>
      requires Valid()
    {
      match HostModule(w, offset)
      case None => None
      case Some(m) => FirstUsing(m.usings, wanted)
    }

    // ---- Tier 4: Base and Core ----

    /** Gives up as soon as one of the packages is missing. */
    function FirstSystem(names: seq<string>, wanted: string): (r: Option<Provided>)
      ensures r.Some? ==> r.value.components != []
    {
      if names == [] || names[0] !in packages then None
      else
        var root := packages[names[0]].root;
        if ModuleExports(root, wanted) then Some(Provided([names[0]], root)) else FirstSystem(names[1..], wanted)
    }

    function SystemExport(wanted: string): Option<Provided> {
      FirstSystem(["Base", "Core"], wanted)
    }

    /** Who exports a name to this position, apart from what masks it. */
    function ExportProvider(wanted: string, offset: nat): Option<Provided>
      requires Valid()
    {
      var own := UsingExport(wanted, offset);
      if own.Some? then own
      else
        var sibling := if workspace.Some? then WorkspaceUsingExport(workspace.value, wanted, offset) else None;
        if sibling.Some? then sibling else SystemExport(wanted)
    }

    // ---- Tier 2 across files ----

    /** Generated overloads alone do not mask an exported type or constant. */
    predicate WorkspaceDefines(m: ModuleIndex, wanted: string, offset: nat, ns: Namespace)
      requires Valid()
    {
      && ModuleDefines(m, wanted, ns)
      && (!ns.Value?
          || DeclaresTypeOrConst(m, wanted)
          || DeclaresFunction(m, wanted)
          || !(var p := ExportProvider(wanted, offset); p.Some? && DeclaresTypeOrConst(p.value.mod, wanted)))
    }

    function WorkspaceTier(w: WorkspaceCtx, wanted: string, offset: nat, ns: Namespace): Option<Resolution>
      requires Valid()
    {
      match HostModule(w, offset)
      case None => None
      case Some(m) =>
        if WorkspaceDefines(m, wanted, offset, ns) || (ns.Value? && m.name == wanted) then
          Some(ToWorkspace(FullModulePath(w, model.ScopeAt(offset)), wanted))
        else if ModuleImports(m, wanted) then Some(ToWorkspaceImport(wanted))
        else None
    }

    // ---- The first tier that answers ----

    function Resolve(name: string, offset: nat, ns: Namespace): Resolution
      requires Valid()
    {
      var wanted := WantedName(name, ns);
      var bound := FileBinding(wanted, offset, ns);
      if bound.Some? then ToBinding(bound.value)
      else
        var shared := if workspace.Some? then WorkspaceTier(workspace.value, wanted, offset, ns) else None;
        if shared.Some? then shared.value
        else
          var own := UsingExport(wanted, offset);
          if own.Some? then ToUsing(Join(own.value.components), wanted)
          else
            var sibling := if workspace.Some? then WorkspaceUsingExport(workspace.value, wanted, offset) else None;
            if sibling.Some? then ToUsing(Join(sibling.value.components), wanted)
            else
              var system := SystemExport(wanted);
              if system.Some? then ToSystem(system.value.components[0], wanted) else Unresolved
    }
  }
}

/** Loading a configuration file with everything it extends (src/config.rs): the
    chain is followed recursively, with the identities of the files being loaded
    on a stack, and merged on the way back. */
module ConfigLoader {
  import opened Sequences
  import opened Wrappers
  import opened ConfigMerge

  type Path = string
  type Identity = nat

  /** A parsed file: its table and what it extends. */
  datatype File = File(table: Value, extend: Option<string>)

  /** A cycle is reported as a parse error that names the identity; it is kept
      apart here. */
  datatype ConfigError =
    | ReadError(path: Path, message: string)
    | ParseError(path: Path, message: string)
    | Cycle(path: Path, identity: Identity)

  /** The file system and the TOML reader. `target` is the file named by an
      `extend` key, with the home directory and relative paths worked out. */
  datatype World = World(
    identities: set<Identity>,
    canonicalize: Path -> Result<Identity, string>,
    read: Path -> Result<string, string>,
    parse: string -> Result<File, string>,
    target: (Path, string) -> Path,
    normalize: Path -> Path,
    isAbsolute: string -> bool,
    beside: (Path, string) -> string)
  {
    ghost predicate Valid() {
      && (forall p: Path :: canonicalize(p).Ok? ==> canonicalize(p).value in identities)
      && forall s: string :: parse(s).Ok? ==> parse(s).value.table.Table?
    }

    function FileAt(path: Path): Result<File, ConfigError> {
      match read(path)
      case Err(message) => Err(ReadError(path, message))
      case Ok(text) =>
        match parse(text)
        case Err(message) => Err(ParseError(path, message))
        case Ok(file) => Ok(file)
    }
  }

  // ---- Entry points of inherited files ----

  function RebasedPoints(w: World, path: Path, points: seq<Value>): seq<Value> {
    if points == [] then []
    else
      var p := points[0];
      [if p.Text? && !w.isAbsolute(p.text) then Text(w.beside(path, p.text)) else p] + RebasedPoints(w, path, points[1..])
  }

  function RebasedKey(w: World, path: Path, project: map<string, Value>, key: string): map<string, Value> {
    if key in project && project[key].Array? then project[key := Array(RebasedPoints(w, path, project[key].items))] else project
  }

  /** Relative entry points are read from the directory of the file they are in. */
  function Rebased(w: World, path: Path, table: Value): (r: Value)
    requires table.Table?
    ensures r.Table?
  {
    if "project" !in table.fields || !table.fields["project"].Table? then table
    else
      var project := table.fields["project"].fields;
      Table(table.fields["project" := Table(RebasedKey(w, path, RebasedKey(w, path, project, "entry-points"), "extend-entry-points"))])
  }

  /** What a file itself contributes; `inherited` when another file extends it. */
  function Own(w: World, path: Path, file: File, inherited: bool): (r: Value)
    requires file.table.Table?
    ensures r.Table?
  {
    var table := Table(file.table.fields - {"extend"});
    if inherited then Rebased(w, path, table) else table
  }

  // ---- Following the chain ----

  function Ids(stack: seq<Identity>): set<Identity> {
    set i | 0 <= i < |stack| :: stack[i]
  }

  function Fresh(w: World, stack: seq<Identity>): nat {
    |w.identities - Ids(stack)|
  }

  lemma PushShrinks(w: World, stack: seq<Identity>, id: Identity)
    requires id in w.identities && id !in stack
    ensures Fresh(w, stack + [id]) < Fresh(w, stack)
  {
    var more := stack + [id];
    assert more[|stack|] == id && forall i :: 0 <= i < |stack| ==> more[i] == stack[i];
    assert Ids(more) == Ids(stack) + {id};
    assert w.identities - Ids(stack) == w.identities - Ids(more) + {id};
  }

  function Load(w: World, path: Path, stack: seq<Identity>): (r: Result<Value, ConfigError>)
    requires w.Valid()
    ensures r.Ok? ==> r.value.Table?
    decreases Fresh(w, stack)
  {
    match w.canonicalize(path)
    case Err(message) => Err(ReadError(path, message))
    case Ok(id) =>
      if id in stack then Err(Cycle(path, id))
      else
        match w.FileAt(path)
        case Err(e) => Err(e)
        case Ok(file) =>
          var table := Own(w, path, file, stack != []);
          if file.extend.None? then Ok(table)
          else
            PushShrinks(w, stack, id);
            match Load(w, w.target(path, file.extend.value), stack + [id])
            case Err(e) => Err(e)
            case Ok(inherited) => Ok(Merged(inherited, table))
  }

  function Visits(w: World, path: Path, stack: seq<Identity>): seq<Path>
    requires w.Valid()
    decreases Fresh(w, stack)
  {
    match w.canonicalize(path)
    case Err(_) => []
    case Ok(id) =>
      if id in stack then []
      else
        match w.FileAt(path)
        case Err(_) => [w.normalize(path)]
        case Ok(file) =>
          if file.extend.None? then [w.normalize(path)]
          else
            PushShrinks(w, stack, id);
            [w.normalize(path)] + Visits(w, w.target(path, file.extend.value), stack + [id])
  }

  class Loader {
    const w: World
    var stack: seq<Identity>
    var visited: seq<Path>

    constructor (world: World)
      ensures w == world && stack == [] && visited == []
    {
      w := world;
      stack, visited := [], [];
    }

    /** The stack is as before afterwards, whatever the outcome. */
    method LoadMergedTable(path: Path) returns (r: Result<Value, ConfigError>)
      requires w.Valid()
      modifies this
      ensures r == Load(w, path, old(stack))
      ensures stack == old(stack) && visited == old(visited) + Visits(w, path, old(stack))
      decreases Fresh(w, stack), 0
    {
      hide Own, Fresh, Ids, World.Valid, Merged;
      var identity := w.canonicalize(path);
      if identity.Err? {
        return Err(ReadError(path, identity.error));
      }
      if identity.value in stack {
        return Err(Cycle(path, identity.value));
      }
      KnownIdentity(w, path);
      PushShrinks(w, stack, identity.value);
      stack := stack + [identity.value];
      visited := visited + [w.normalize(path)];
      r := LoadPushed(path);
      stack := stack[..|stack| - 1];
    }

    /** The part that runs with the file on the stack. */
    method LoadPushed(path: Path) returns (r: Result<Value, ConfigError>)
      requires w.Valid() && stack != []
      modifies this
      ensures r == LoadRest(w, path, old(stack))
      ensures stack == old(stack) && visited == old(visited) + VisitRest(w, path, old(stack))
      decreases Fresh(w, stack), 1
    {
      hide Own, Fresh, Ids, World.Valid, Merged;
      var file := w.FileAt(path);
      if file.Err? {
        return Err(file.error);
      }
      ParsedTable(w, path);
      var table := Own(w, path, file.value, |stack| > 1);
      if file.value.extend.None? {
        return Ok(table);
      }
      var inherited := LoadMergedTable(w.target(path, file.value.extend.value));
      if inherited.Err? {
        return inherited;
      }
      var merged := MergeConfigTables(inherited.value, table);
      r := Ok(merged);
    }
  }

  /** What remains of a load once its file is on the stack. */
  function LoadRest(w: World, path: Path, stack: seq<Identity>): Result<Value, ConfigError>
    requires w.Valid() && stack != []
  {
    match w.FileAt(path)
    case Err(e) => Err(e)
    case Ok(file) =>
      var table := Own(w, path, file, |stack| > 1);
      if file.extend.None? then Ok(table)
      else
        match Load(w, w.target(path, file.extend.value), stack)
        case Err(e) => Err(e)
        case Ok(inherited) => Ok(Merged(inherited, table))
  }

  function VisitRest(w: World, path: Path, stack: seq<Identity>): seq<Path>
    requires w.Valid() && stack != []
  {
    match w.FileAt(path)
    case Err(_) => []
    case Ok(file) => if file.extend.None? then [] else Visits(w, w.target(path, file.extend.value), stack)
  }

  lemma KnownIdentity(w: World, path: Path)
    requires w.Valid() && w.canonicalize(path).Ok?
    ensures w.canonicalize(path).value in w.identities
  {
  }

  lemma ParsedTable(w: World, path: Path)
    requires w.Valid() && w.FileAt(path).Ok?
    ensures w.FileAt(path).value.table.Table?
  {
  }

  // ---- What the outcome says about the chain ----

  /** The file can be identified and parsed, and extends another. */
  predicate Leads(w: World, path: Path, next: Path) {
    && w.canonicalize(path).Ok? && w.FileAt(path).Ok?
    && w.FileAt(path).value.extend.Some? && next == w.target(path, w.FileAt(path).value.extend.value)
  }

  ghost predicate IsChain(w: World, path: Path, chain: seq<Path>) {
    && chain != [] && chain[0] == path
    && forall i :: 0 <= i < |chain| - 1 ==> Leads(w, chain[i], chain[i + 1])
  }

  function IdAt(w: World, path: Path): Identity {
    match w.canonicalize(path)
    case Ok(id) => id
    case Err(_) => 0
  }

  function IdsOf(w: World, chain: seq<Path>): seq<Identity> {
    if chain == [] then [] else [IdAt(w, chain[0])] + IdsOf(w, chain[1..])
  }

  /** What each file of the chain contributes, the extending file first. */
  function Contributions(w: World, chain: seq<Path>, inherited: bool): (r: seq<Value>)
    requires w.Valid()
    ensures |r| == |chain| && forall i :: 0 <= i < |r| ==> r[i].Table?
  {
    if chain == [] then []
    else
      (match w.FileAt(chain[0])
       case Err(_) => [Table(map[])]
       case Ok(file) => ParsedTable(w, chain[0]); [Own(w, chain[0], file, inherited)])
      + Contributions(w, chain[1..], true)
  }

  function Normalize(w: World, chain: seq<Path>): seq<Path> {
    if chain == [] then [] else [w.normalize(chain[0])] + Normalize(w, chain[1..])
  }

  function Last(chain: seq<Path>): Path
    requires chain != []
  {
    chain[|chain| - 1]
  }

  /** The chain ends in a file that extends nothing. */
  ghost predicate EndsWell(w: World, chain: seq<Path>)
    requires chain != []
  {
    w.canonicalize(Last(chain)).Ok? && w.FileAt(Last(chain)).Ok? && w.FileAt(Last(chain)).value.extend.None?
  }

  /** How an outcome reads off a chain of extended files. */
  ghost predicate Explains(w: World, path: Path, stack: seq<Identity>, chain: seq<Path>, outcome: Result<Value, ConfigError>)
    requires w.Valid()
  {
    && IsChain(w, path, chain)
    && var last := Last(chain);
       var before := stack + IdsOf(w, chain[..|chain| - 1]);
       match outcome
       case Ok(t) =>
         && EndsWell(w, chain) && IdAt(w, last) !in before
         && t == Fold(Contributions(w, chain, stack != []))
       case Err(Cycle(p, id)) => p == last && w.canonicalize(p) == Ok(id) && id in before
       case Err(ReadError(p, message)) =>
         && p == last
         && (w.canonicalize(p) == Err(message)
             || (w.canonicalize(p).Ok? && IdAt(w, p) !in before && w.read(p) == Err(message)))
       case Err(ParseError(p, message)) =>
         && p == last && w.canonicalize(p).Ok? && IdAt(w, p) !in before
         && w.read(p).Ok? && w.parse(w.read(p).value) == Err(message)
  }

  /** The files of a chain that are entered: all but a last one that cannot be
      identified or is on the stack already. */
  function Entered(w: World, stack: seq<Identity>, chain: seq<Path>): seq<Path>
    requires chain != []
  {
    var front := chain[..|chain| - 1];
    if w.canonicalize(Last(chain)).Ok? && IdAt(w, Last(chain)) !in stack + IdsOf(w, front) then chain else front
  }

  lemma OneFile(w: World, path: Path, inherited: bool)
    requires w.Valid() && w.FileAt(path).Ok?
    ensures w.FileAt(path).value.table.Table?
    ensures Fold(Contributions(w, [path], inherited)) == Own(w, path, w.FileAt(path).value, inherited)
  {
    var t := Own(w, path, w.FileAt(path).value, inherited);
    assert Contributions(w, [path], inherited) == [t];
    assert Fold([t]) == Merged(Table(map[]), t);
    MergeIsMonoid(t, t, t);
    hide Own, Merged;
  }

  lemma ConsChain(w: World, path: Path, stack: seq<Identity>, id: Identity, chain: seq<Path>, outcome: Result<Value, ConfigError>)
    requires w.Valid() && w.canonicalize(path) == Ok(id) && id !in stack && chain != [] && Leads(w, path, chain[0])
    requires Explains(w, chain[0], stack + [id], chain, outcome)
    ensures w.FileAt(path).value.table.Table?
    ensures outcome.Ok? ==> outcome.value.Table?
    ensures Explains(w, path, stack, [path] + chain,
                     if outcome.Err? then outcome else Ok(Merged(outcome.value, Own(w, path, w.FileAt(path).value, stack != []))))
  {
    ParsedTable(w, path);
    var longer := [path] + chain;
    hide Own, Merged, World.Valid;
    assert longer[1..] == chain;
    assert IsChain(w, path, longer) by {
      forall i | 0 <= i < |longer| - 1
        ensures Leads(w, longer[i], longer[i + 1])
      {
        if i > 0 {
          assert longer[i] == chain[i - 1] && longer[i + 1] == chain[i - 1 + 1];
        }
      }
    }
    assert longer[..|longer| - 1] == [path] + chain[..|chain| - 1];
    var front := longer[..|longer| - 1];
    assert front[1..] == chain[..|chain| - 1];
    assert IdsOf(w, front) == [id] + IdsOf(w, chain[..|chain| - 1]);
    assert stack + IdsOf(w, front) == (stack + [id]) + IdsOf(w, chain[..|chain| - 1]);
    if outcome.Ok? {
      var all := Contributions(w, longer, stack != []);
      assert all[0] == Own(w, path, w.FileAt(path).value, stack != []);
      assert all[1..] == Contributions(w, chain, true);
    }
  }

  /** Every outcome is explained by the chain of files that was followed. */
  lemma {:induction false} OutcomeIsChain(w: World, path: Path, stack: seq<Identity>) returns (chain: seq<Path>)
    requires w.Valid()
    ensures Explains(w, path, stack, chain, Load(w, path, stack))
    ensures IsChain(w, path, chain) && Visits(w, path, stack) == Normalize(w, Entered(w, stack, chain))
    decreases Fresh(w, stack)
  {
    var id := w.canonicalize(path);
    if id.Ok? && id.value !in stack && w.FileAt(path).Ok? && w.FileAt(path).value.extend.Some? {
      PushShrinks(w, stack, id.value);
      var next := w.target(path, w.FileAt(path).value.extend.value);
      var rest := OutcomeIsChain(w, next, stack + [id.value]);
      ConsChain(w, path, stack, id.value, rest, Load(w, next, stack + [id.value]));
      chain := [path] + rest;
      EnteredCons(w, path, stack, id.value, rest);
      hide Explains, Own, Merged, Fresh, World.Valid, Entered;
    } else {
      chain := [path];
      hide Explains, Own, Fresh, World.Valid;
      StopsHere(w, path, stack);
    }
  }

  lemma EnteredCons(w: World, path: Path, stack: seq<Identity>, id: Identity, rest: seq<Path>)
    requires rest != [] && w.canonicalize(path) == Ok(id)
    ensures Normalize(w, Entered(w, stack, [path] + rest)) == [w.normalize(path)] + Normalize(w, Entered(w, stack + [id], rest))
  {
    var longer, front := [path] + rest, rest[..|rest| - 1];
    assert longer[..|longer| - 1] == [path] + front && ([path] + front)[1..] == front && longer[1..] == rest;
    assert IdsOf(w, [path] + front) == [id] + IdsOf(w, front);
    assert stack + ([id] + IdsOf(w, front)) == (stack + [id]) + IdsOf(w, front);
  }

  lemma StopsHere(w: World, path: Path, stack: seq<Identity>)
    requires w.Valid()
    requires w.canonicalize(path).Err? || w.canonicalize(path).value in stack
          || w.FileAt(path).Err? || w.FileAt(path).value.extend.None?
    ensures Explains(w, path, stack, [path], Load(w, path, stack))
    ensures Visits(w, path, stack) == Normalize(w, Entered(w, stack, [path]))
  {
    var one := [path];
    assert one[..0] == [] && one[1..] == [];
    assert stack + [] == stack;
    if w.FileAt(path).Ok? {
      OneFile(w, path, stack != []);
    }
    hide Own, Merged, Fresh, Fold, Contributions, World.Valid;
  }

  /** A cycle is reported exactly when some chain of extended files comes back to a
      file that is already on it. */
  lemma CycleIsReported(w: World, path: Path)
    requires w.Valid()
    ensures Load(w, path, []).Err? && Load(w, path, []).error.Cycle? <==>
      exists chain :: IsChain(w, path, chain) && Returns(w, [], chain)
  {
    var outcome := Load(w, path, []);
    var followed := OutcomeIsChain(w, path, []);
    hide Load, Own;
    if outcome.Err? && outcome.error.Cycle? {
      assert Returns(w, [], followed);
    }
    if chain :| IsChain(w, path, chain) && Returns(w, [], chain) {
      ReturnIsCycle(w, path, [], chain);
    }
  }

  /** The last file of the chain is on the stack or earlier on the chain. */
  ghost predicate Returns(w: World, stack: seq<Identity>, chain: seq<Path>) {
    && chain != [] && w.canonicalize(Last(chain)).Ok?
    && IdAt(w, Last(chain)) in stack + IdsOf(w, chain[..|chain| - 1])
  }

  lemma {:induction false} ReturnIsCycle(w: World, path: Path, stack: seq<Identity>, chain: seq<Path>)
    requires w.Valid() && IsChain(w, path, chain) && Returns(w, stack, chain)
    ensures Load(w, path, stack).Err? && Load(w, path, stack).error.Cycle?
    decreases chain
  {
    hide Own, Merged;
    if |chain| == 1 {
      assert chain[..0] == [];
    } else {
      assert Leads(w, chain[0], chain[0 + 1]);
      var id := w.canonicalize(path).value;
      if id !in stack {
        var rest := chain[1..];
        assert IsChain(w, chain[1], rest) by {
          forall i | 0 <= i < |rest| - 1
            ensures Leads(w, rest[i], rest[i + 1])
          {
            assert rest[i] == chain[i + 1] && rest[i + 1] == chain[i + 1 + 1];
          }
        }
        var front := chain[..|chain| - 1];
        assert front[1..] == rest[..|rest| - 1];
        assert IdsOf(w, front) == [id] + IdsOf(w, rest[..|rest| - 1]);
        assert stack + IdsOf(w, front) == (stack + [id]) + IdsOf(w, rest[..|rest| - 1]);
        PushShrinks(w, stack, id);
        ReturnIsCycle(w, chain[1], stack + [id], rest);
      }
    }
  }

  /** A load that succeeds is the chain's own tables merged, every file once, the
      extended ones with their entry points rebased; and it visits just those. */
  lemma LoadIsFold(w: World, path: Path) returns (chain: seq<Path>)
    requires w.Valid() && Load(w, path, []).Ok?
    ensures IsChain(w, path, chain) && EndsWell(w, chain) && Distinct(IdsOf(w, chain))
    ensures Load(w, path, []).value == Fold(Contributions(w, chain, false))
    ensures Visits(w, path, []) == Normalize(w, chain)
  {
    chain := OutcomeIsChain(w, path, []);
    hide Load, Visits, Fold, Contributions;
    NoReturn(w, path, chain);
  }

  lemma {:induction false} IdsAre(w: World, chain: seq<Path>)
    ensures |IdsOf(w, chain)| == |chain| && forall i :: 0 <= i < |chain| ==> IdsOf(w, chain)[i] == IdAt(w, chain[i])
  {
    if chain != [] {
      IdsAre(w, chain[1..]);
    }
  }

  lemma FrontIsChain(w: World, path: Path, chain: seq<Path>, n: nat)
    requires IsChain(w, path, chain) && 0 < n <= |chain|
    ensures IsChain(w, path, chain[..n])
  {
    var front := chain[..n];
    forall k | 0 <= k < |front| - 1
      ensures Leads(w, front[k], front[k + 1])
    {
      assert Leads(w, chain[k], chain[k + 1]);
    }
  }

  lemma RepeatReturns(w: World, path: Path, chain: seq<Path>, i: nat, j: nat)
    requires IsChain(w, path, chain) && EndsWell(w, chain)
    requires i < j < |chain| && IdAt(w, chain[i]) == IdAt(w, chain[j])
    ensures Returns(w, [], chain[..j + 1])
  {
    var front := chain[..j + 1];
    assert front[..|front| - 1] == chain[..j];
    if j < |chain| - 1 {
      assert Leads(w, chain[j], chain[j + 1]);
    }
    IdsAre(w, chain[..j]);
    assert IdsOf(w, chain[..j])[i] == IdAt(w, chain[j]);
    hide IdAt, IdsOf;
    assert [] + IdsOf(w, chain[..j]) == IdsOf(w, chain[..j]);
  }

  lemma NoReturn(w: World, path: Path, chain: seq<Path>)
    requires w.Valid() && Load(w, path, []).Ok? && IsChain(w, path, chain) && EndsWell(w, chain)
    ensures Distinct(IdsOf(w, chain))
  {
    IdsAre(w, chain);
    hide Load, IdAt, Returns, IsChain, EndsWell, World.Valid, IdsOf;
    forall i: nat, j: nat | i < j < |chain|
      ensures IdAt(w, chain[i]) != IdAt(w, chain[j])
    {
      if IdAt(w, chain[i]) == IdAt(w, chain[j]) {
        RepeatReturns(w, path, chain, i, j);
        FrontIsChain(w, path, chain, j + 1);
        ReturnIsCycle(w, path, [], chain[..j + 1]);
      }
    }
  }
}

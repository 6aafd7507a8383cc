/** The document model the `.cm` parser fills: group-version binds, kind
    aliases and controller-manager declarations with their states and
    actions. Every table is insert-if-absent: a key once present keeps its
    first value. Each entity is a value (what gets copied into a parent
    table) and, where the parser updates it in place, a class whose methods
    are proved to perform the value operation. */
module GenModel {

  /** schema.GroupVersion. */
  datatype GroupVersion = GroupVersion(group: string, version: string)
  {
    /** GroupVersion.String(): the version alone for the core group. */
    function String(): (s: string)
      ensures group == "" ==> s == version
      ensures group != "" ==> s == group + "/" + version
    {
      if group == "" then version else group + "/" + version
    }
  }

  /** schema.GroupVersionKind. */
  datatype GroupVersionKind = GroupVersionKind(group: string, version: string, kind: string)
  {
    function Gv(): GroupVersion {
      GroupVersion(group, version)
    }
  }

  datatype GvBind = GvBind(gv: string, parsed: GroupVersion, pkg: string)

  /** Adding `k` to a table unless it is already there. */
  function InsertIfAbsent<K, V>(m: map<K, V>, k: K, v: V): (r: map<K, V>)
    ensures k in r
    ensures k in m ==> r == m
    ensures k !in m ==> r[k] == v
    ensures forall k' :: k' in m ==> k' in r && r[k'] == m[k']
    ensures forall k' :: k' in r ==> k' in m || k' == k
  {
    if k in m then m else m[k := v]
  }

  /** `m2` keeps every entry of `m1`. */
  ghost predicate Extends<K, V>(m1: map<K, V>, m2: map<K, V>) {
    forall k :: k in m1 ==> k in m2 && m2[k] == m1[k]
  }

  datatype StateValue = StateValue(
    comments: seq<string>,
    name: string,
    stateType: string,
    isArray: bool,
    selectors: map<string, string>)
  {
    /** AddSelector: insert-if-absent on the selector table. */
    function AddSelector(key: string, value: string): (r: (bool, StateValue))
      ensures r.0 <==> key !in selectors
      ensures !r.0 ==> r.1 == this
      ensures r.1 == this.(selectors := r.1.selectors)
      ensures r.1.selectors == InsertIfAbsent(selectors, key, value)
    {
      if key in selectors then (false, this) else (true, this.(selectors := selectors[key := value]))
    }
  }

  /** An action's parameters are state names; no parameters is the empty list. */
  datatype ActionDeclaration = ActionDeclaration(comments: seq<string>, name: string, params: seq<string>)

  /** The names of a list of actions, in order. */
  function ActionNames(acts: seq<ActionDeclaration>): (names: seq<string>)
    ensures |names| == |acts|
    ensures forall i :: 0 <= i < |acts| ==> names[i] == acts[i].name
  {
    seq(|acts|, i requires 0 <= i < |acts| => acts[i].name)
  }

  datatype DeclValue = DeclValue(
    comments: seq<string>,
    name: string,
    targetType: string,
    states: map<string, StateValue>,
    actions: seq<ActionDeclaration>,
    actionMap: map<string, ActionDeclaration>)
  {
    predicate ContainsState(name: string) {
      name in states
    }

    /** AddStateDeclaration: insert-if-absent, keyed by the state's name. */
    function AddStateDeclaration(s: StateValue): (r: (bool, DeclValue))
      ensures r.0 <==> !ContainsState(s.name)
      ensures !r.0 ==> r.1 == this
      ensures r.1 == this.(states := r.1.states)
      ensures r.1.states == InsertIfAbsent(states, s.name, s)
    {
      if s.name in states then (false, this) else (true, this.(states := states[s.name := s]))
    }

    /** After adding a state, exactly the earlier states and the new name are declared. */
    lemma AddStateContains(s: StateValue, n: string)
      ensures AddStateDeclaration(s).1.ContainsState(n) <==> ContainsState(n) || n == s.name
    {
    }

    /** The actions list and the action table agree: distinct names, the
        same key set, and each name maps to its own declaration. */
    ghost predicate ActionsConsistent() {
      && (forall i, j :: 0 <= i < j < |actions| ==> actions[i].name != actions[j].name)
      && (forall i :: 0 <= i < |actions| ==> actions[i].name in actionMap
                                             && actionMap[actions[i].name] == actions[i])
      && (forall n :: n in actionMap ==> n in ActionNames(actions))
    }

    /** AddActionDeclaration: a new name is appended to the list and recorded
        in the table; a known name is refused. */
    function AddActionDeclaration(act: ActionDeclaration): (r: (bool, DeclValue))
      ensures r.0 <==> act.name !in actionMap
      ensures !r.0 ==> r.1 == this
      ensures r.0 ==> r.1 == this.(actions := actions + [act], actionMap := actionMap[act.name := act])
    {
      if act.name in actionMap then (false, this)
      else (true, this.(actions := actions + [act], actionMap := actionMap[act.name := act]))
    }
  }

  /** Adding an action keeps the list and the table consistent, and keeps
      the earlier actions in insertion order. */
  lemma AddActionKeepsConsistent(d: DeclValue, act: ActionDeclaration)
    requires d.ActionsConsistent()
    ensures d.AddActionDeclaration(act).1.ActionsConsistent()
    ensures d.AddActionDeclaration(act).1.actions[..|d.actions|] == d.actions
  {
    var (added, d') := d.AddActionDeclaration(act);
    if added {
      var acts := d.actions + [act];
      var m := d.actionMap[act.name := act];
      assert d'.actions == acts && d'.actionMap == m;
      forall i | 0 <= i < |d.actions| ensures d.actions[i].name != act.name {
        assert d.actions[i].name in d.actionMap;
      }
      forall i, j | 0 <= i < j < |acts| ensures acts[i].name != acts[j].name {
        assert acts[i] == d.actions[i];
        if j < |d.actions| {
          assert acts[j] == d.actions[j];
        }
      }
      forall i | 0 <= i < |acts| ensures acts[i].name in m && m[acts[i].name] == acts[i] {
        if i < |d.actions| {
          assert acts[i] == d.actions[i];
        }
      }
      forall n | n in m ensures n in ActionNames(acts) {
        if n == act.name {
          assert ActionNames(acts)[|d.actions|] == n;
        } else {
          var i :| 0 <= i < |d.actions| && ActionNames(d.actions)[i] == n;
          assert ActionNames(acts)[i] == n;
        }
      }
      assert acts[..|d.actions|] == d.actions;
    }
  }

  datatype DocValue = DocValue(
    gvPkgBinds: map<string, GvBind>,
    gvkAliases: map<string, string>,
    decls: map<string, DeclValue>)
  {
    function GetGvPkg(gv: string): string {
      if gv in gvPkgBinds then gvPkgBinds[gv].pkg else ""
    }

    /** IsGvBound: the bind exists and names a package (a missing key reads
        as the zero value, whose package is empty). */
    predicate IsGvBound(gv: string)
      ensures IsGvBound(gv) <==> gv in gvPkgBinds && gvPkgBinds[gv].pkg != ""
    {
      GetGvPkg(gv) != ""
    }

    function GetGvkByAlias(alias: string): string {
      if alias in gvkAliases then gvkAliases[alias] else ""
    }

    predicate DoesAliasExists(alias: string)
      ensures DoesAliasExists(alias) <==> alias in gvkAliases && gvkAliases[alias] != ""
    {
      GetGvkByAlias(alias) != ""
    }

    predicate DoesControllerManagerDeclarationExists(name: string) {
      name in decls
    }

    /** AddGvBind: insert-if-absent, keyed by the group-version text. */
    function AddGvBind(gv: string, pkg: string, parsed: GroupVersion): (r: (bool, DocValue))
      ensures r.0 <==> gv !in gvPkgBinds
      ensures !r.0 ==> r.1 == this
      ensures r.1 == this.(gvPkgBinds := r.1.gvPkgBinds)
      ensures r.1.gvPkgBinds == InsertIfAbsent(gvPkgBinds, gv, GvBind(gv, parsed, pkg))
      ensures r.0 ==> (r.1.IsGvBound(gv) <==> pkg != "")
    {
      if gv in gvPkgBinds then (false, this)
      else (true, this.(gvPkgBinds := gvPkgBinds[gv := GvBind(gv, parsed, pkg)]))
    }

    /** AddGvkAliases: insert-if-absent, keyed by the alias. */
    function AddGvkAliases(gvk: string, alias: string): (r: (bool, DocValue))
      ensures r.0 <==> alias !in gvkAliases
      ensures !r.0 ==> r.1 == this
      ensures r.1 == this.(gvkAliases := r.1.gvkAliases)
      ensures r.1.gvkAliases == InsertIfAbsent(gvkAliases, alias, gvk)
      ensures r.0 ==> (r.1.DoesAliasExists(alias) <==> gvk != "")
    {
      if alias in gvkAliases then (false, this)
      else (true, this.(gvkAliases := gvkAliases[alias := gvk]))
    }
  }

  /** A document only grows: binds, aliases and declarations keep their entries. */
  ghost predicate Grows(d1: DocValue, d2: DocValue) {
    Extends(d1.gvPkgBinds, d2.gvPkgBinds) && Extends(d1.gvkAliases, d2.gvkAliases) && Extends(d1.decls, d2.decls)
  }

  /** What resolves in a document keeps resolving in any document that grows from it. */
  lemma GrowsKeepsResolution(d1: DocValue, d2: DocValue, name: string)
    requires Grows(d1, d2)
    ensures d1.IsGvBound(name) ==> d2.IsGvBound(name)
    ensures d1.DoesAliasExists(name) ==> d2.DoesAliasExists(name)
    ensures d1.DoesControllerManagerDeclarationExists(name) ==> d2.DoesControllerManagerDeclarationExists(name)
  {
  }

  // ---------------------------------------------------------------------------
  // The objects the parser updates in place

  /** ControllerManagerDocument with its embedded GvReflections. */
  class ControllerManagerDocument {
    var gvPkgBinds: map<string, GvBind>
    var gvkAliases: map<string, string>
    var decls: map<string, DeclValue>

    constructor ()
      ensures Snapshot() == DocValue(map[], map[], map[])
    {
      gvPkgBinds, gvkAliases, decls := map[], map[], map[];
    }

    function Snapshot(): DocValue
      reads this
    {
      DocValue(gvPkgBinds, gvkAliases, decls)
    }

    method AddGvBind(gv: string, pkg: string, parsed: GroupVersion) returns (added: bool)
      modifies this
      ensures (added, Snapshot()) == old(Snapshot()).AddGvBind(gv, pkg, parsed)
    {
      if gv in gvPkgBinds {
        return false;
      }
      gvPkgBinds := gvPkgBinds[gv := GvBind(gv, parsed, pkg)];
      return true;
    }

    method AddGvkAliases(gvk: string, alias: string) returns (added: bool)
      modifies this
      ensures (added, Snapshot()) == old(Snapshot()).AddGvkAliases(gvk, alias)
    {
      if alias in gvkAliases {
        return false;
      }
      gvkAliases := gvkAliases[alias := gvk];
      return true;
    }

    /** `doc.Decls[decl.Name] = *decl`: the declaration is copied in. */
    method StoreDecl(decl: DeclValue)
      modifies this
      ensures Snapshot() == old(Snapshot()).(decls := old(decls)[decl.name := decl])
    {
      decls := decls[decl.name := decl];
    }
  }

  class StateDeclaration {
    var comments: seq<string>
    var name: string
    var stateType: string
    var isArray: bool
    var selectors: map<string, string>

    constructor (comments: seq<string>, name: string, stateType: string, isArray: bool)
      ensures Snapshot() == StateValue(comments, name, stateType, isArray, map[])
    {
      this.comments, this.name, this.stateType, this.isArray := comments, name, stateType, isArray;
      selectors := map[];
    }

    function Snapshot(): StateValue
      reads this
    {
      StateValue(comments, name, stateType, isArray, selectors)
    }

    method AddSelector(key: string, value: string) returns (added: bool)
      modifies this
      ensures (added, Snapshot()) == old(Snapshot()).AddSelector(key, value)
    {
      if key in selectors {
        return false;
      }
      selectors := selectors[key := value];
      return true;
    }
  }

  class ControllerManagerDeclaration {
    var comments: seq<string>
    var name: string
    var targetType: string
    var states: map<string, StateValue>
    var actions: seq<ActionDeclaration>
    var actionMap: map<string, ActionDeclaration>

    constructor (comments: seq<string>, name: string, targetType: string)
      ensures Snapshot() == DeclValue(comments, name, targetType, map[], [], map[])
    {
      this.comments, this.name, this.targetType := comments, name, targetType;
      states, actions, actionMap := map[], [], map[];
    }

    function Snapshot(): DeclValue
      reads this
    {
      DeclValue(comments, name, targetType, states, actions, actionMap)
    }

    method AddStateDeclaration(s: StateValue) returns (added: bool)
      modifies this
      ensures (added, Snapshot()) == old(Snapshot()).AddStateDeclaration(s)
    {
      if s.name in states {
        return false;
      }
      states := states[s.name := s];
      return true;
    }

    method AddActionDeclaration(act: ActionDeclaration) returns (added: bool)
      modifies this
      ensures (added, Snapshot()) == old(Snapshot()).AddActionDeclaration(act)
    {
      if act.name in actionMap {
        return false;
      }
      actionMap := actionMap[act.name := act];
      actions := actions + [act];
      return true;
    }
  }
}

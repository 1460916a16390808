/** The two-tier address filter of kismet/class_filter.cc: filters for a phy that is not known yet wait under
    its name and move to a table keyed by id when the phy arrives. Together the tables refine one map. */
module MacFilter {

  type Mac = int

  type Table = map<Mac, bool>

  datatype Entry = Unset | Value(value: bool)

  function Get(t: Table, mac: Mac): Entry {
    if mac in t then Value(t[mac]) else Unset
  }

  function TableOf<K(==)>(m: map<K, Table>, k: K): Table {
    if k in m then m[k] else map[]
  }

  /** `m[k][mac] = value`, making the inner table if needed. */
  function Put<K(==)>(m: map<K, Table>, k: K, mac: Mac, value: bool): map<K, Table> {
    m[k := TableOf(m, k)[mac := value]]
  }

  /** Erase mac from the table of k, if there is one. */
  function Drop<K(==)>(m: map<K, Table>, k: K, mac: Mac): map<K, Table> {
    if k in m then m[k := m[k] - {mac}] else m
  }

  /** Phys by name, as the device tracker knows them. */
  type Phys = map<string, nat>

  datatype Tables = Tables(byId: map<nat, Table>, pending: map<string, Table>, block: map<string, Table>)

  /** `set_filter` */
  function Set(t: Tables, phys: Phys, name: string, mac: Mac, value: bool): Tables {
    var block := Put(t.block, name, mac, value);
    if name !in phys then t.(block := block, pending := Put(t.pending, name, mac, value))
    else t.(block := block, byId := Put(t.byId, phys[name], mac, value))
  }

  /** `remove_filter` */
  function Remove(t: Tables, phys: Phys, name: string, mac: Mac): Tables {
    var block := Drop(t.block, name, mac);
    if name !in phys then t.(block := block, pending := Drop(t.pending, name, mac))
    else t.(block := block, byId := Drop(t.byId, phys[name], mac))
  }

  /** `update_phy_map`: the table pending under the name replaces the one of the phy's id. */
  function Arrive(t: Tables, phys: Phys, name: string): Tables {
    if name !in phys || name !in t.pending then t
    else t.(byId := t.byId[phys[name] := t.pending[name]], pending := t.pending - {name})
  }

  /** `filter` */
  function Filter(t: Tables, mac: Mac, id: nat, default: bool): bool {
    if id in t.byId && mac in t.byId[id] then t.byId[id][mac] else default
  }

  /** The fields of `class_filter_mac_addr`; the phys known to the device tracker are a parameter. */
  class ClassFilterMacAddr {
    var filterDefault: bool
    var filterPhyBlock: map<string, Table>
    var phyMacFilterMap: map<nat, Table>
    var unknownPhyMacFilterMap: map<string, Table>

    constructor ()
      ensures State() == Tables(map[], map[], map[]) && !filterDefault
    {
      filterDefault := false;
      filterPhyBlock, phyMacFilterMap, unknownPhyMacFilterMap := map[], map[], map[];
    }

    ghost function State(): Tables
      reads this
    {
      Tables(phyMacFilterMap, unknownPhyMacFilterMap, filterPhyBlock)
    }

    method SetFilter(mac: Mac, name: string, value: bool, phys: Phys)
      modifies this
      ensures State() == Set(old(State()), phys, name, mac, value) && filterDefault == old(filterDefault)
    {
      var tracked: Table := map[];
      if name in filterPhyBlock {
        tracked := filterPhyBlock[name];
      }
      filterPhyBlock := filterPhyBlock[name := tracked[mac := value]];
      if name !in phys {
        unknownPhyMacFilterMap := Put(unknownPhyMacFilterMap, name, mac, value);
        return;
      }
      phyMacFilterMap := Put(phyMacFilterMap, phys[name], mac, value);
    }

    method RemoveFilter(mac: Mac, name: string, phys: Phys)
      modifies this
      ensures State() == Remove(old(State()), phys, name, mac) && filterDefault == old(filterDefault)
    {
      if name in filterPhyBlock {
        filterPhyBlock := filterPhyBlock[name := filterPhyBlock[name] - {mac}];
      }
      if name !in phys {
        if name !in unknownPhyMacFilterMap {
          return;
        }
        unknownPhyMacFilterMap := unknownPhyMacFilterMap[name := unknownPhyMacFilterMap[name] - {mac}];
        return;
      }
      var id := phys[name];
      if id !in phyMacFilterMap {
        return;
      }
      phyMacFilterMap := phyMacFilterMap[id := phyMacFilterMap[id] - {mac}];
    }

    method UpdatePhyMap(name: string, phys: Phys)
      modifies this
      ensures State() == Arrive(old(State()), phys, name) && filterDefault == old(filterDefault)
    {
      if |unknownPhyMacFilterMap| == 0 {
        return;
      }
      if name !in phys {
        return;
      }
      if name !in unknownPhyMacFilterMap {
        return;
      }
      phyMacFilterMap := phyMacFilterMap[phys[name] := unknownPhyMacFilterMap[name]];
      unknownPhyMacFilterMap := unknownPhyMacFilterMap - {name};
    }

    method FilterMac(mac: Mac, id: nat) returns (blocked: bool)
      ensures blocked == Filter(State(), mac, id, filterDefault)
    {
      if id !in phyMacFilterMap {
        return filterDefault;
      }
      if mac !in phyMacFilterMap[id] {
        return filterDefault;
      }
      return phyMacFilterMap[id][mac];
    }
  }

  // ----- runs -----

  /** One filter edit, a phy registering with the device tracker, or the event that announces it. */
  datatype Step =
    | SetStep(name: string, mac: Mac, value: bool)
    | RemoveStep(name: string, mac: Mac)
    | RegisterStep(name: string, id: nat)
    | ArriveStep(name: string)

  /** The tables, the phys, those registered but not announced yet, and the reference: one map by phy name
      and address. */
  datatype World = World(tables: Tables, phys: Phys, unannounced: set<string>, filters: map<(string, Mac), bool>)

  const EMPTY: World := World(Tables(map[], map[], map[]), map[], {}, map[])

  function Next(w: World, s: Step): World {
    match s
    case SetStep(name, mac, value) =>
      w.(tables := Set(w.tables, w.phys, name, mac, value), filters := w.filters[(name, mac) := value])
    case RemoveStep(name, mac) =>
      w.(tables := Remove(w.tables, w.phys, name, mac), filters := w.filters - {(name, mac)})
    case RegisterStep(name, id) =>
      w.(phys := w.phys[name := id], unannounced := w.unannounced + {name})
    case ArriveStep(name) =>
      w.(tables := Arrive(w.tables, w.phys, name), unannounced := w.unannounced - {name})
  }

  /** A phy has registered, is not announced yet, and filters are pending for it. */
  predicate Stranded(w: World, name: string) {
    name in w.phys && name in w.unannounced && name in w.tables.pending
  }

  /** Names register once, with new ids; filters are not edited while they are stranded. */
  predicate Legal(w: World, s: Step) {
    match s
    case SetStep(name, _, _) => !Stranded(w, name)
    case RemoveStep(name, _) => !Stranded(w, name)
    case RegisterStep(name, id) => name !in w.phys && id !in w.phys.Values
    case ArriveStep(_) => true
  }

  function Reference(w: World, name: string, mac: Mac): Entry {
    if (name, mac) in w.filters then Value(w.filters[(name, mac)]) else Unset
  }

  /** The table that holds the filters of a phy at this time. */
  function Holding(w: World, name: string): Table {
    if name !in w.phys || Stranded(w, name) then TableOf(w.tables.pending, name)
    else TableOf(w.tables.byId, w.phys[name])
  }

  /** Ids are unique, only registered phys have an id table, and a phy with pending filters has none. */
  ghost predicate PhysInv(w: World) {
    && (forall a, b :: a in w.phys && b in w.phys && a != b ==> w.phys[a] != w.phys[b])
    && (forall id :: id in w.tables.byId ==> id in w.phys.Values)
    && (forall name :: name in w.tables.pending && name in w.phys ==>
          name in w.unannounced && w.phys[name] !in w.tables.byId)
  }

  ghost predicate Agrees(t: Table, w: World, name: string) {
    forall mac :: Get(t, mac) == Reference(w, name, mac)
  }

  ghost predicate Inv(w: World) {
    && PhysInv(w)
    && (forall name :: Agrees(Holding(w, name), w, name))
    && (forall name :: Agrees(TableOf(w.tables.block, name), w, name))
  }

  lemma PhysInvNext(w: World, s: Step)
    requires PhysInv(w) && Legal(w, s)
    ensures PhysInv(Next(w, s))
  {
    match s
    case RegisterStep(name, id) =>
      forall k | k in w.tables.byId
        ensures k in w.phys[name := id].Values
      {
        var other :| other in w.phys && w.phys[other] == k;
        assert w.phys[name := id][other] == k;
      }
    case _ =>
      assert s.name in w.phys ==> w.phys[s.name] in w.phys.Values;
  }

  /** The table holding a phy's filters after a step. */
  lemma HoldingNext(w: World, s: Step, name: string)
    requires PhysInv(w) && Legal(w, s)
    ensures Holding(Next(w, s), name)
         == if s.SetStep? && s.name == name then Holding(w, name)[s.mac := s.value]
            else if s.RemoveStep? && s.name == name then Holding(w, name) - {s.mac}
            else Holding(w, name)
  {
  }

  lemma BlockNext(w: World, s: Step, name: string)
    ensures TableOf(Next(w, s).tables.block, name)
         == if s.SetStep? && s.name == name then TableOf(w.tables.block, name)[s.mac := s.value]
            else if s.RemoveStep? && s.name == name then TableOf(w.tables.block, name) - {s.mac}
            else TableOf(w.tables.block, name)
  {
  }

  lemma AgreesNext(t: Table, w: World, s: Step, name: string)
    requires Agrees(t, w, name)
    ensures Agrees(
      if s.SetStep? && s.name == name then t[s.mac := s.value]
      else if s.RemoveStep? && s.name == name then t - {s.mac}
      else t, Next(w, s), name)
  {
    forall mac
      ensures s.SetStep? && s.name == name ==> Get(t[s.mac := s.value], mac) == Reference(Next(w, s), name, mac)
      ensures s.RemoveStep? && s.name == name ==> Get(t - {s.mac}, mac) == Reference(Next(w, s), name, mac)
      ensures !(s.SetStep? && s.name == name) && !(s.RemoveStep? && s.name == name)
        ==> Get(t, mac) == Reference(Next(w, s), name, mac)
    {
      assert Get(t, mac) == Reference(w, name, mac);
    }
  }

  lemma NextKeepsInv(w: World, s: Step)
    requires Inv(w) && Legal(w, s)
    ensures Inv(Next(w, s))
  {
    hide PhysInv, Agrees, Holding, Next, Legal;
    PhysInvNext(w, s);
    forall name
      ensures Agrees(Holding(Next(w, s), name), Next(w, s), name)
      ensures Agrees(TableOf(Next(w, s).tables.block, name), Next(w, s), name)
    {
      HoldingNext(w, s, name);
      BlockNext(w, s, name);
      AgreesNext(Holding(w, name), w, s, name);
      AgreesNext(TableOf(w.tables.block, name), w, s, name);
    }
  }

  /** The state after a run of steps. */
  function Run(w: World, steps: seq<Step>): World
    decreases |steps|
  {
    if steps == [] then w else Next(Run(w, steps[..|steps| - 1]), steps[|steps| - 1])
  }

  ghost predicate LegalRun(w: World, steps: seq<Step>) {
    forall k :: 0 <= k < |steps| ==> Legal(Run(w, steps[..k]), steps[k])
  }

  lemma {:induction false} RunKeepsInv(w: World, steps: seq<Step>)
    requires Inv(w) && LegalRun(w, steps)
    ensures Inv(Run(w, steps))
    decreases |steps|
  {
    hide Inv, Next, Legal;
    if steps != [] {
      var n := |steps| - 1;
      assert LegalRun(w, steps[..n]) by {
        forall k | 0 <= k < n
          ensures steps[..n][..k] == steps[..k]
        {
        }
      }
      RunKeepsInv(w, steps[..n]);
      NextKeepsInv(Run(w, steps[..n]), steps[n]);
    }
  }

  /** In any run, filtering by id is a lookup in the one map by name, with the default for unset addresses;
      ids that belong to no phy, and phys whose filters are still stranded, get the default. The block that is
      exported always is the one map. */
  lemma FilterRefines(steps: seq<Step>, mac: Mac, id: nat, default: bool)
    requires LegalRun(EMPTY, steps)
    ensures var w := Run(EMPTY, steps);
      && (forall name :: name in w.phys && w.phys[name] == id ==>
            Filter(w.tables, mac, id, default)
            == if Stranded(w, name) || Reference(w, name, mac).Unset? then default else Reference(w, name, mac).value)
      && (id !in w.phys.Values ==> Filter(w.tables, mac, id, default) == default)
      && (forall name :: Get(TableOf(w.tables.block, name), mac) == Reference(w, name, mac))
  {
    hide Run, LegalRun, Reference;
    EmptyInv();
    RunKeepsInv(EMPTY, steps);
    var w := Run(EMPTY, steps);
    forall name | name in w.phys && w.phys[name] == id
      ensures Filter(w.tables, mac, id, default)
           == if Stranded(w, name) || Reference(w, name, mac).Unset? then default else Reference(w, name, mac).value
    {
      assert Agrees(Holding(w, name), w, name);
      assert Get(Holding(w, name), mac) == Reference(w, name, mac);
    }
    forall name
      ensures Get(TableOf(w.tables.block, name), mac) == Reference(w, name, mac)
    {
      assert Agrees(TableOf(w.tables.block, name), w, name);
    }
  }

  lemma EmptyInv()
    ensures Inv(EMPTY)
  {
  }

  /** The gap is reached: a filter is set, then its phy registers. */
  lemma StrandedReached(name: string, id: nat, mac: Mac, value: bool)
    ensures var steps := [SetStep(name, mac, value), RegisterStep(name, id)];
      LegalRun(EMPTY, steps) && Inv(Run(EMPTY, steps)) && Stranded(Run(EMPTY, steps), name)
  {
    hide Inv;
    var steps := [SetStep(name, mac, value), RegisterStep(name, id)];
    var first := Next(EMPTY, steps[0]);
    assert steps[..0] == [] && steps[..1] == [steps[0]] && [steps[0]][..0] == [];
    assert Run(EMPTY, steps[..1]) == first && Run(EMPTY, steps) == Next(first, steps[1]);
    assert LegalRun(EMPTY, steps);
    EmptyInv();
    RunKeepsInv(EMPTY, steps);
  }

  /** A step that neither edits this filter nor announces its phy. */
  predicate Beside(s: Step, name: string, mac: Mac) {
    match s
    case SetStep(n, m, _) => !(n == name && m == mac)
    case RemoveStep(n, m) => !(n == name && m == mac)
    case RegisterStep(_, _) => true
    case ArriveStep(n) => n != name
  }

  lemma BesideNext(w: World, s: Step, name: string, mac: Mac)
    requires name in w.phys && name in w.tables.pending && Beside(s, name, mac)
    ensures var w' := Next(w, s);
      && name in w'.phys && name in w'.tables.pending && w'.tables.pending[name] == w.tables.pending[name]
      && Reference(w', name, mac) == Reference(w, name, mac)
  {
  }

  /** Such steps, however many, leave the pending table of a registered phy and the reference as they are. */
  lemma {:induction false} BesideKeeps(w: World, steps: seq<Step>, name: string, mac: Mac)
    requires name in w.phys && name in w.tables.pending
    requires forall k :: 0 <= k < |steps| ==> Beside(steps[k], name, mac)
    ensures var w' := Run(w, steps);
      && name in w'.phys && name in w'.tables.pending && w'.tables.pending[name] == w.tables.pending[name]
      && Reference(w', name, mac) == Reference(w, name, mac)
    decreases |steps|
  {
    if steps != [] {
      hide Next, Beside, Reference;
      BesideKeeps(w, steps[..|steps| - 1], name, mac);
      BesideNext(Run(w, steps[..|steps| - 1]), steps[|steps| - 1], name, mac);
    }
  }

  /** What the announcement of a stranded phy leaves: the filter that was pending, whatever the reference says. */
  lemma StrandedArrival(w: World, w': World, name: string, mac: Mac, between: seq<Step>)
    requires Inv(w) && Stranded(w, name)
    requires name in w'.phys && w'.tables.pending == w.tables.pending
    requires forall k :: 0 <= k < |between| ==> Beside(between[k], name, mac)
    ensures var end := Next(Run(w', between), ArriveStep(name));
      && name in end.phys
      && Get(TableOf(end.tables.byId, end.phys[name]), mac) == Reference(w, name, mac)
      && Reference(end, name, mac) == Reference(w', name, mac)
  {
    hide Run;
    BesideKeeps(w', between, name, mac);
    assert Agrees(Holding(w, name), w, name);
    assert Get(TableOf(w.tables.pending, name), mac) == Reference(w, name, mac);
  }

  /** A filter set while the phy is stranded, whatever else happens until the announcement, survives it exactly
      when it was pending already: the pending table replaces whatever the edit left under the id. */
  lemma StrandedEdit(w: World, name: string, mac: Mac, value: bool, between: seq<Step>)
    requires Inv(w) && Stranded(w, name)
    requires forall k :: 0 <= k < |between| ==> Beside(between[k], name, mac)
    ensures var end := Next(Run(Next(w, SetStep(name, mac, value)), between), ArriveStep(name));
      && name in end.phys
      && (Get(TableOf(end.tables.byId, end.phys[name]), mac) == Reference(end, name, mac)
          <==> Reference(w, name, mac) == Value(value))
  {
    hide Run, Inv;
    StrandedArrival(w, Next(w, SetStep(name, mac, value)), name, mac, between);
  }

  /** ... and one removed then comes back, unless it was not set. */
  lemma StrandedRemoval(w: World, name: string, mac: Mac, between: seq<Step>)
    requires Inv(w) && Stranded(w, name)
    requires forall k :: 0 <= k < |between| ==> Beside(between[k], name, mac)
    ensures var end := Next(Run(Next(w, RemoveStep(name, mac)), between), ArriveStep(name));
      && name in end.phys
      && (Get(TableOf(end.tables.byId, end.phys[name]), mac) == Reference(end, name, mac)
          <==> Reference(w, name, mac) == Unset)
  {
    hide Run, Inv;
    StrandedArrival(w, Next(w, RemoveStep(name, mac)), name, mac, between);
  }
}

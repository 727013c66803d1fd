/**
  The whole setting, "ring settings for all operations" or "allreduce=.../alltoall=...", and the table of
  one vector of algorithms per operation that it fills.
*/
module AlgTable {
  import opened Common
  import opened AlgConfig

  /** The numbers of the operations whose algorithms are copied. */
  const ALLTOALLV: nat := 8
  const ALLTOALLVC: nat := 9
  const ALLTOALL: nat := 10

  /** One vector per operation number. */
  type Table = t: seq<seq<Algo>> | |t| > 13 witness seq(14, _ => [])

  /** What a call returns and the table it leaves, also when it fails. */
  datatype Outcome = Outcome(ok: bool, table: Table)

  const HCCL_OP_TYPE_MAP: map<string, nat> :=
    map["broadcast" := 1, "allreduce" := 2, "reduce" := 3, "send" := 4, "receive" := 5, "allgather" := 6,
        "reducescatter" := 7, "alltoall" := ALLTOALL, "gather" := 11, "scatter" := 12, "sendrecv" := 13]

  function CmdOf(s: string): (r: Option<nat>)
    ensures r.Some? ==> Named(r.value)
  {
    if s in HCCL_OP_TYPE_MAP then Some(HCCL_OP_TYPE_MAP[s]) else None
  }

  predicate Named(cmd: nat) { 1 <= cmd <= 7 || 10 <= cmd <= 13 }

  function CmdName(cmd: nat): string
    requires Named(cmd)
  {
    match cmd
    case 1 => "broadcast" case 2 => "allreduce" case 3 => "reduce" case 4 => "send" case 5 => "receive"
    case 6 => "allgather" case 7 => "reducescatter" case 10 => "alltoall" case 11 => "gather"
    case 12 => "scatter" case _ => "sendrecv"
  }

  // ---------------------------------------------------------------------------------------------
  // What the routines do to the table
  // ---------------------------------------------------------------------------------------------

  function ForAll(t: Table, v: seq<Algo>): (r: Table)
    ensures |r| == |t| && forall c | 0 <= c < |t| :: r[c] == v
  {
    seq(|t|, _ => v)
  }

  function SetCommon(t: Table, algos: seq<Str>): Outcome
    requires algos != []
  {
    match Parse(algos[0])
    case None => Outcome(false, t)
    case Some(v) => Outcome(true, ForAll(t, v))
  }

  function OpString(item: Str): Str { Before(item, Find(item, '=')) }

  function Remain(item: Str): Str { After(item, Find(item, '=')) }

  /** The first pass, from the i-th item on, enters the items for all "others". */
  function OthersPass(t: Table, algos: seq<Str>, i: nat): (o: Outcome)
    requires i <= |algos|
    ensures |o.table| == |t|
    decreases |algos| - i
  {
    if i == |algos| then Outcome(true, t)
    else if OpString(algos[i]) != "others" then OthersPass(t, algos, i + 1)
    else
      match Parse(Remain(algos[i]))
      case None => Outcome(false, t)
      case Some(v) => OthersPass(ForAll(t, v), algos, i + 1)
  }

  /** An item of the second pass: an operation and its vector, whose level 0 must not be null. */
  function ParseItem(item: Str): Option<(nat, seq<Algo>)> {
    var cmd, v := CmdOf(OpString(item)), Parse(Remain(item));
    if cmd.None? || v.None? || v.value[0] == Null then None else Some((cmd.value, v.value))
  }

  function NamedPass(t: Table, algos: seq<Str>, i: nat): (o: Outcome)
    requires i <= |algos|
    ensures |o.table| == |t|
    decreases |algos| - i
  {
    if i == |algos| then Outcome(true, t)
    else
      match ParseItem(algos[i])
      case None => Outcome(false, t)
      case Some(p) => NamedPass(t[p.0 := p.1], algos, i + 1)
  }

  function CopyAllToAll(t: Table): Table { t[ALLTOALLV := t[ALLTOALL]][ALLTOALLVC := t[ALLTOALL]] }

  function SetSpecific(t: Table, algos: seq<Str>): Outcome {
    var others := OthersPass(t, algos, 0);
    if !others.ok then others
    else
      var named := NamedPass(others.table, algos, 0);
      if named.ok then Outcome(true, CopyAllToAll(named.table)) else named
  }

  function RemoveSpaces(s: string): (r: string)
    ensures |r| <= |s|
  {
    if s == [] then [] else (if s[0] == ' ' then [] else [s[0]]) + RemoveSpaces(s[1..])
  }

  function SetConfig(t: Table, s: Str): Outcome {
    var config := RemoveSpaces(s);
    if config == "" then Outcome(true, t)
    else
      match Split(config, '/', None, [])
      case None => Outcome(false, t)
      case Some(algos) =>
        if !Consistent(algos) then Outcome(false, t)
        else if IsCommon(algos) then SetCommon(t, algos)
        else SetSpecific(t, algos)
  }

  // ---------------------------------------------------------------------------------------------
  // Configurations, how they are printed and what they mean
  // ---------------------------------------------------------------------------------------------

  datatype Item = Item(cmd: nat, settings: seq<Setting>) {
    predicate Valid() {
      Named(cmd) && Proper(settings) && Setting(0, Null) !in settings
    }
  }

  datatype Config = Common(settings: seq<Setting>) | Specific(items: seq<Item>) {
    predicate Valid() {
      match this
      case Common(settings) => Proper(settings)
      case Specific(items) => items != [] && AllProper(items)
    }
  }

  predicate Proper(settings: seq<Setting>) { settings != [] && AllValid(settings) && DistinctLevels(settings) }

  predicate AllProper(items: seq<Item>) { forall i | 0 <= i < |items| :: items[i].Valid() }

  function Vector(settings: seq<Setting>): (v: seq<Algo>)
    requires Proper(settings)
    ensures |v| == LEVELS
  {
    Enter(settings, 0, Unset())
  }

  function PrintItem(item: Item): string
    requires item.Valid()
  {
    CmdName(item.cmd) + ['='] + Print(item.settings)
  }

  /** The algorithms the last item for cmd gives it, or else the old ones. */
  function Latest(items: seq<Item>, cmd: nat, before: seq<Algo>): seq<Algo>
    requires AllProper(items)
  {
    if items == [] then before
    else
      var n := |items| - 1;
      if items[n].cmd == cmd then Vector(items[n].settings) else Latest(items[..n], cmd, before)
  }

  /** Operation c's algorithms under a configuration, when they were t[c] before; the two variable-length
      AlltoAll operations follow AlltoAll. */
  function Means(t: Table, config: Config, c: nat): seq<Algo>
    requires config.Valid() && c < |t|
  {
    var source := if c == ALLTOALLV || c == ALLTOALLVC then ALLTOALL else c;
    match config
    case Common(settings) => Vector(settings)
    case Specific(items) => Latest(items, source, t[source])
  }

  /** The string is the configuration printed. */
  ghost predicate IsPrintOf(s: string, config: Config)
    requires config.Valid()
  {
    match config
    case Common(settings) => s == Print(settings)
    case Specific(items) => exists algos :: algos != [] && PrintedFrom(algos, 0, items) && s == Join(algos, '/')
  }

  /** The strings from the i-th on start with the items printed. */
  predicate PrintedAt(algos: seq<Str>, i: nat, items: seq<Item>) {
    i + |items| <= |algos| && AllProper(items)
    && forall k | 0 <= k < |items| :: algos[i + k] == PrintItem(items[k])
  }

  /** The strings from the i-th on are the items printed. */
  predicate PrintedFrom(algos: seq<Str>, i: nat, items: seq<Item>) {
    PrintedAt(algos, i, items) && i + |items| == |algos|
  }

  // ---------------------------------------------------------------------------------------------
  // Characters of printed strings
  // ---------------------------------------------------------------------------------------------

  predicate Plain(s: string) { ' ' !in s && '/' !in s && '=' !in s }

  lemma CmdNames(s: string, cmd: nat)
    requires Named(cmd)
    ensures CmdOf(s) == Some(cmd) <==> s == CmdName(cmd)
  {}

  lemma CmdStrings(s: string)
    requires CmdOf(s).Some?
    ensures Named(CmdOf(s).value) && s != "" && s[0] != 'l' && s != "others"
  {}

  lemma CmdIsPlain(cmd: nat)
    requires Named(cmd)
    ensures Plain(CmdName(cmd)) && CmdName(cmd) != ""
  {}

  lemma SettingIsPlain(t: Setting)
    requires t.Valid()
    ensures Plain(PrintSetting(t)) && PrintSetting(t) != "" && PrintSetting(t)[0] == 'l'
  {
    var name, algo := LevelName(t.level), AlgoName(t.algo);
    assert Plain(name) && name[0] == 'l';
    assert Plain(algo);
    PlainJoin(name, ':', algo);
  }

  lemma PlainJoin(a: string, c: char, b: string)
    requires Plain(a) && Plain(b) && c !in " /="
    ensures Plain(a + [c] + b)
  {}

  lemma {:induction false} JoinIsPlain(fields: seq<Str>)
    requires fields != [] && forall i | 0 <= i < |fields| :: Plain(fields[i]) && fields[i] != "" && fields[i][0] == 'l'
    ensures Plain(Join(fields, ';')) && Join(fields, ';') != "" && Join(fields, ';')[0] == 'l'
  {
    if |fields| > 1 {
      JoinIsPlain(fields[1..]);
      PlainJoin(fields[0], ';', Join(fields[1..], ';'));
    }
  }

  lemma PrintIsPlain(settings: seq<Setting>)
    requires Proper(settings)
    ensures Plain(Print(settings)) && Print(settings) != "" && Print(settings)[0] == 'l'
  {
    forall i | 0 <= i < |settings| ensures var f := PrintFields(settings)[i]; Plain(f) && f != "" && f[0] == 'l' {
      SettingIsPlain(settings[i]);
    }
    JoinIsPlain(PrintFields(settings));
  }

  // ---------------------------------------------------------------------------------------------
  // Items
  // ---------------------------------------------------------------------------------------------

  lemma {:induction false} EnterHolds(settings: seq<Setting>, i: nat, v: seq<Algo>, t: Setting)
    requires i <= |settings| && |v| == LEVELS && AllValid(settings) && DistinctLevels(settings)
    requires FreshFrom(settings, i, v) && t.Valid()
    ensures Enter(settings, i, v)[t.level] == t.algo <==> v[t.level] == t.algo || t in settings[i..]
    decreases |settings| - i
  {
    if i < |settings| {
      FreshNext(settings, i, v);
      EnterHolds(settings, i + 1, v[settings[i].level := settings[i].algo], t);
      assert settings[i..] == [settings[i]] + settings[i + 1..];
    }
  }

  /** A vector holds exactly the settings it was made from; every other level is the default. */
  lemma VectorHolds(settings: seq<Setting>, t: Setting)
    requires Proper(settings) && t.Valid()
    ensures Vector(settings)[t.level] == t.algo <==> t in settings
    ensures Vector(settings)[t.level] == DefaultAlgo <==>
            forall a | a != DefaultAlgo :: Setting(t.level, a) !in settings
  {
    assert settings[0..] == settings;
    EnterHolds(settings, 0, Unset(), t);
    var held := Vector(settings)[t.level];
    if held != DefaultAlgo {
      EnterHolds(settings, 0, Unset(), Setting(t.level, held));
    }
    forall a | a != DefaultAlgo && Setting(t.level, a) in settings ensures held == a {
      EnterHolds(settings, 0, Unset(), Setting(t.level, a));
    }
  }

  ghost predicate IsItem(s: string, cmd: nat, v: seq<Algo>, settings: seq<Setting>) {
    var item := Item(cmd, settings);
    item.Valid() && PrintItem(item) == s && Vector(settings) == v
  }

  lemma SettingsPrinted(s: Str, v: seq<Algo>) returns (settings: seq<Setting>)
    requires Parse(s) == Some(v)
    ensures Proper(settings) && Print(settings) == s && Vector(settings) == v
  {
    ParseIff(s, v);
    settings :| settings != [] && AllValid(settings) && DistinctLevels(settings)
                && Print(settings) == s && Enter(settings, 0, Unset()) == v;
  }

  lemma SettingsStart(s: Str)
    requires Parse(s).Some?
    ensures s != "" && s[0] == 'l'
  {
    var settings := SettingsPrinted(s, Parse(s).value);
    PrintIsPlain(settings);
  }

  lemma OpAndRemain(s: Str)
    ensures if Find(s, '=') == NPOS then OpString(s) == s == Remain(s)
            else s == OpString(s) + ['='] + Remain(s)
  {}

  /** Without '=' an item is both name and settings, but no string of settings is an operation's name. */
  lemma NamedItemHasSeparator(s: Str, name: Str, remain: Str)
    requires name == OpString(s) && remain == Remain(s) && CmdOf(name).Some? && Parse(remain).Some?
    ensures s == name + ['='] + remain
  {
    CmdStrings(name);
    SettingsStart(remain);
    OpAndRemain(s);
  }

  lemma ItemShape(s: Str, cmd: nat, v: seq<Algo>)
    requires ParseItem(s) == Some((cmd, v))
    ensures Named(cmd) && s == CmdName(cmd) + ['='] + Remain(s)
    ensures Parse(Remain(s)) == Some(v) && v[0] != Null
  {
    CmdStrings(OpString(s));
    CmdNames(OpString(s), cmd);
    NamedItemHasSeparator(s, OpString(s), Remain(s));
  }

  lemma ItemOf(s: Str, cmd: nat, v: seq<Algo>) returns (settings: seq<Setting>)
    requires ParseItem(s) == Some((cmd, v))
    ensures IsItem(s, cmd, v, settings)
  {
    ItemShape(s, cmd, v);
    settings := SettingsPrinted(Remain(s), v);
    VectorHolds(settings, Setting(0, Null));
  }

  lemma ItemParts(s: Str, name: Str, rest: Str)
    requires '=' !in name && s == name + ['='] + rest
    ensures OpString(s) == name && Remain(s) == rest
  {
    FindSeparator(s, name, '=', rest);
    Parts(s, name, '=', rest);
  }

  lemma PrintedItemParses(s: Str, item: Item)
    requires item.Valid() && PrintItem(item) == s
    ensures ParseItem(s) == Some((item.cmd, Vector(item.settings))) && OpString(s) != "others"
  {
    CmdNames(CmdName(item.cmd), item.cmd);
    CmdStrings(CmdName(item.cmd));
    CmdIsPlain(item.cmd);
    ItemParts(s, CmdName(item.cmd), Print(item.settings));
    ParseOfPrint(item.settings);
    VectorHolds(item.settings, Setting(0, Null));
  }

  /** An item is accepted exactly when it prints an operation with settings that do not set level 0 to
      null, and then for that operation and the settings' vector. */
  lemma ParseItemIff(s: Str, cmd: nat, v: seq<Algo>)
    ensures ParseItem(s) == Some((cmd, v)) <==> exists settings :: IsItem(s, cmd, v, settings)
  {
    if ParseItem(s) == Some((cmd, v)) {
      var settings := ItemOf(s, cmd, v);
    }
    if settings :| IsItem(s, cmd, v, settings) {
      PrintedItemParses(s, Item(cmd, settings));
    }
  }

  // ---------------------------------------------------------------------------------------------
  // Items per operation
  // ---------------------------------------------------------------------------------------------

  lemma {:induction false} LatestCons(item: Item, rest: seq<Item>, cmd: nat, before: seq<Algo>)
    requires item.Valid() && AllProper(rest) && AllProper([item] + rest)
    ensures Latest([item] + rest, cmd, before)
         == Latest(rest, cmd, if item.cmd == cmd then Vector(item.settings) else before)
  {
    var all, n := [item] + rest, |rest|;
    if n > 0 {
      assert all[n] == rest[n - 1] && all[..n] == [item] + rest[..n - 1];
      LatestCons(item, rest[..n - 1], cmd, before);
    } else {
      assert all == [item] && all[..0] == [];
    }
  }

  lemma PrintedTail(algos: seq<Str>, i: nat, items: seq<Item>)
    requires PrintedAt(algos, i, items) && items != []
    ensures items[0].Valid() && algos[i] == PrintItem(items[0]) && PrintedAt(algos, i + 1, items[1..])
  {
    assert algos[i + 0] == PrintItem(items[0]);
    forall k | 0 <= k < |items| - 1 ensures algos[i + 1 + k] == PrintItem(items[1..][k]) {
      assert algos[i + (k + 1)] == PrintItem(items[k + 1]);
    }
  }

  lemma NamedPassNext(t: Table, algos: seq<Str>, i: nat, item: Item)
    requires i < |algos| && item.Valid() && algos[i] == PrintItem(item)
    ensures NamedPass(t, algos, i) == NamedPass(t[item.cmd := Vector(item.settings)], algos, i + 1)
  {
    PrintedItemParses(algos[i], item);
  }

  lemma {:induction false} LatestNext(t: Table, items: seq<Item>, t1: Table)
    requires items != [] && AllProper(items) && t1 == t[items[0].cmd := Vector(items[0].settings)]
    ensures forall c | 0 <= c < |t| :: Latest(items[1..], c, t1[c]) == Latest(items, c, t[c])
  {
    var item, rest := items[0], items[1..];
    assert [item] + rest == items;
    forall c | 0 <= c < |t| ensures Latest(items, c, t[c]) == Latest(rest, c, t1[c]) {
      LatestCons(item, rest, c, t[c]);
    }
  }

  /** The table after items have been entered one by one. */
  function Entered(t: Table, items: seq<Item>): (r: Table)
    requires AllProper(items)
    ensures |r| == |t|
    decreases |items|
  {
    if items == [] then t else Entered(t[items[0].cmd := Vector(items[0].settings)], items[1..])
  }

  lemma {:induction false} EnteredIsLatest(t: Table, items: seq<Item>)
    requires AllProper(items)
    ensures forall c | 0 <= c < |t| :: Entered(t, items)[c] == Latest(items, c, t[c])
    decreases |items|
  {
    if items != [] {
      var t1: Table := t[items[0].cmd := Vector(items[0].settings)];
      EnteredIsLatest(t1, items[1..]);
      LatestNext(t, items, t1);
    }
  }

  lemma EnteredNext(t: Table, items: seq<Item>)
    requires AllProper(items) && items != []
    ensures Entered(t, items) == Entered(t[items[0].cmd := Vector(items[0].settings)], items[1..])
  {}

  /** After printed items the pass goes on with the table they make. */
  lemma {:induction false} NamedPassAfterItems(t: Table, algos: seq<Str>, i: nat, items: seq<Item>, n: nat)
    requires PrintedAt(algos, i, items) && n == i + |items|
    ensures NamedPass(t, algos, i) == NamedPass(Entered(t, items), algos, n)
    decreases |items|
  {
    if items != [] {
      var t1: Table, rest := t[items[0].cmd := Vector(items[0].settings)], items[1..];
      PrintedTail(algos, i, items);
      EnteredNext(t, items);
      NamedPassNext(t, algos, i, items[0]);
      NamedPassAfterItems(t1, algos, i + 1, rest, n);
    }
  }

  lemma NamedPassOfPrinted(t: Table, algos: seq<Str>, items: seq<Item>)
    requires PrintedFrom(algos, 0, items)
    ensures NamedPass(t, algos, 0) == Outcome(true, Entered(t, items))
  {
    NamedPassAfterItems(t, algos, 0, items, |items|);
  }

  lemma PrintedCons(algos: seq<Str>, i: nat, item: Item, rest: seq<Item>)
    requires i < |algos| && item.Valid() && algos[i] == PrintItem(item) && PrintedFrom(algos, i + 1, rest)
    ensures PrintedFrom(algos, i, [item] + rest)
  {
    var items := [item] + rest;
    forall k | 0 <= k < |items| ensures items[k].Valid() && algos[i + k] == PrintItem(items[k]) {
      if k > 0 {
        assert algos[i + 1 + (k - 1)] == PrintItem(rest[k - 1]);
      }
    }
  }

  lemma NamedPassStep(t: Table, algos: seq<Str>, i: nat) returns (item: Item, t1: Table)
    requires i < |algos| && NamedPass(t, algos, i).ok
    ensures item.Valid() && algos[i] == PrintItem(item) && NamedPass(t1, algos, i + 1).ok
  {
    var p := ParseItem(algos[i]).value;
    var settings := ItemOf(algos[i], p.0, p.1);
    item := Item(p.0, settings);
    t1 := t[p.0 := p.1];
  }

  lemma {:induction false} ItemsOf(t: Table, algos: seq<Str>, i: nat) returns (items: seq<Item>)
    requires i <= |algos| && NamedPass(t, algos, i).ok
    ensures PrintedFrom(algos, i, items)
    decreases |algos| - i
  {
    if i == |algos| {
      items := [];
    } else {
      var item, t1 := NamedPassStep(t, algos, i);
      var rest := ItemsOf(t1, algos, i + 1);
      PrintedCons(algos, i, item, rest);
      items := [item] + rest;
    }
  }

  lemma OthersSkip(t: Table, algos: seq<Str>, i: nat, item: Item)
    requires i < |algos| && item.Valid() && algos[i] == PrintItem(item)
    ensures OthersPass(t, algos, i) == OthersPass(t, algos, i + 1)
  {
    PrintedItemParses(algos[i], item);
  }

  lemma {:induction false} NoOthers(t: Table, algos: seq<Str>, i: nat, items: seq<Item>)
    requires PrintedFrom(algos, i, items)
    ensures OthersPass(t, algos, i) == Outcome(true, t)
    decreases |items|
  {
    if items != [] {
      PrintedTail(algos, i, items);
      OthersSkip(t, algos, i, items[0]);
      NoOthers(t, algos, i + 1, items[1..]);
    }
  }

  lemma SpecificOfPrinted(t: Table, algos: seq<Str>, items: seq<Item>)
    requires items != [] && PrintedFrom(algos, 0, items)
    ensures var o := SetSpecific(t, algos);
            o.ok && |o.table| == |t| && forall c | 0 <= c < |t| :: o.table[c] == Means(t, Specific(items), c)
  {
    NoOthers(t, algos, 0, items);
    NamedPassOfPrinted(t, algos, items);
    EnteredIsLatest(t, items);
  }

  lemma SpecificItems(t: Table, algos: seq<Str>) returns (items: seq<Item>)
    requires SetSpecific(t, algos).ok
    ensures PrintedFrom(algos, 0, items)
  {
    items := ItemsOf(OthersPass(t, algos, 0).table, algos, 0);
  }

  /** Items are accepted exactly when each prints an operation with its settings; the last item for an
      operation counts. */
  lemma SetSpecificIff(t: Table, algos: seq<Str>)
    requires algos != []
    ensures SetSpecific(t, algos).ok <==> exists items :: PrintedFrom(algos, 0, items)
    ensures forall items | items != [] && PrintedFrom(algos, 0, items) :: forall c | 0 <= c < |t| ::
              SetSpecific(t, algos).table[c] == Means(t, Specific(items), c)
  {
    if SetSpecific(t, algos).ok {
      var items := SpecificItems(t, algos);
    }
    forall items | items != [] && PrintedFrom(algos, 0, items)
      ensures SetSpecific(t, algos).ok
      ensures forall c | 0 <= c < |t| :: SetSpecific(t, algos).table[c] == Means(t, Specific(items), c)
    {
      SpecificOfPrinted(t, algos, items);
    }
  }

  /** An item for all "others" is never accepted: the second pass does not know the name. */
  lemma OthersNeverAccepted(t: Table, algos: seq<Str>, i: nat)
    requires i < |algos| && OpString(algos[i]) == "others"
    ensures !SetSpecific(t, algos).ok
  {
    if SetSpecific(t, algos).ok {
      var items := SpecificItems(t, algos);
      assert algos[0 + i] == PrintItem(items[i]);
      PrintedItemParses(algos[i], items[i]);
    }
  }

  // ---------------------------------------------------------------------------------------------
  // What a refused call leaves
  // ---------------------------------------------------------------------------------------------

  /** The first item from the i-th on that is for all "others", or |algos|. */
  function FirstOthers(algos: seq<Str>, i: nat): (k: nat)
    requires i <= |algos|
    ensures i <= k <= |algos| && (k < |algos| ==> OpString(algos[k]) == "others")
    ensures forall j | i <= j < k :: OpString(algos[j]) != "others"
    decreases |algos| - i
  {
    if i == |algos| || OpString(algos[i]) == "others" then i else FirstOthers(algos, i + 1)
  }

  /** The first item to be entered is already bad. */
  predicate NothingEntered(algos: seq<Str>)
    requires algos != []
  {
    var k := FirstOthers(algos, 0);
    if k < |algos| then Parse(Remain(algos[k])) == None else ParseItem(algos[0]) == None
  }

  lemma {:induction false} OthersSkipTo(t: Table, algos: seq<Str>, i: nat)
    requires i <= |algos|
    ensures OthersPass(t, algos, i) == OthersPass(t, algos, FirstOthers(algos, i))
    decreases |algos| - i
  {
    if i < |algos| && OpString(algos[i]) != "others" {
      OthersSkipTo(t, algos, i + 1);
    }
  }

  lemma NothingEnteredLeavesTable(t: Table, algos: seq<Str>)
    requires algos != [] && NothingEntered(algos)
    ensures SetSpecific(t, algos) == Outcome(false, t)
  {
    OthersSkipTo(t, algos, 0);
  }

  lemma ParsedIsSet(s: Str)
    requires Parse(s).Some?
    ensures Parse(s).value != Unset()
  {
    var settings := SettingsPrinted(s, Parse(s).value);
    VectorHolds(settings, settings[0]);
  }

  lemma {:induction false} OthersPassKeepsSet(t: Table, algos: seq<Str>, i: nat, c: nat)
    requires i <= |algos| && c < |t| && t[c] != Unset()
    ensures OthersPass(t, algos, i).table[c] != Unset()
    decreases |algos| - i
  {
    if i < |algos| {
      var v := Parse(Remain(algos[i]));
      if OpString(algos[i]) != "others" {
        OthersPassKeepsSet(t, algos, i + 1, c);
      } else if v.Some? {
        ParsedIsSet(Remain(algos[i]));
        OthersPassKeepsSet(ForAll(t, v.value), algos, i + 1, c);
      }
    }
  }

  lemma ItemIsSet(s: Str)
    requires ParseItem(s).Some?
    ensures Named(ParseItem(s).value.0) && ParseItem(s).value.1 != Unset()
  {
    CmdStrings(OpString(s));
    ParsedIsSet(Remain(s));
  }

  lemma {:induction false} NamedPassKeepsSet(t: Table, algos: seq<Str>, i: nat, c: nat)
    requires i <= |algos| && c < |t| && t[c] != Unset()
    ensures NamedPass(t, algos, i).table[c] != Unset()
    decreases |algos| - i
  {
    if i < |algos| && ParseItem(algos[i]).Some? {
      var p := ParseItem(algos[i]).value;
      ItemIsSet(algos[i]);
      NamedPassKeepsSet(t[p.0 := p.1], algos, i + 1, c);
    }
  }

  /** The table before any setting, with one vector per operation. */
  function Blank(): (t: Table)
    ensures forall c | 0 <= c < |t| :: t[c] == Unset()
  {
    seq(14, _ => Unset())
  }

  lemma RefusedTable(t: Table, algos: seq<Str>)
    requires !SetSpecific(t, algos).ok
    ensures var others := OthersPass(t, algos, 0);
            SetSpecific(t, algos).table == if others.ok then NamedPass(others.table, algos, 0).table else others.table
  {}

  lemma OthersPassOn(t: Table, algos: seq<Str>, k: nat)
    requires k < |algos| && OpString(algos[k]) == "others" && Parse(Remain(algos[k])).Some?
    ensures OthersPass(t, algos, k) == OthersPass(ForAll(t, Parse(Remain(algos[k])).value), algos, k + 1)
  {}

  lemma EnteredOthersAreSet(t: Table, algos: seq<Str>, k: nat)
    requires k == FirstOthers(algos, 0) < |algos| && Parse(Remain(algos[k])).Some?
    ensures OthersPass(t, algos, 0).table[0] != Unset()
  {
    var base := ForAll(t, Parse(Remain(algos[k])).value);
    OthersSkipTo(t, algos, 0);
    OthersPassOn(t, algos, k);
    ParsedIsSet(Remain(algos[k]));
    OthersPassKeepsSet(base, algos, k + 1, 0);
  }

  lemma EnteredItemIsSet(t: Table, algos: seq<Str>) returns (c: nat)
    requires algos != [] && ParseItem(algos[0]).Some?
    ensures c < |t| && NamedPass(t, algos, 0).table[c] != Unset()
  {
    var p := ParseItem(algos[0]).value;
    c := p.0;
    ItemIsSet(algos[0]);
    NamedPassOn(t, algos, 0, c, p.1);
    NamedPassKeepsSet(t[c := p.1], algos, 1, c);
  }

  /** After a refused call that entered something, some operation has a setting. */
  lemma EnteredIsSet(t: Table, algos: seq<Str>) returns (c: nat)
    requires algos != [] && !SetSpecific(t, algos).ok && !NothingEntered(algos)
    ensures c < |t| && SetSpecific(t, algos).table[c] != Unset()
  {
    var k, others := FirstOthers(algos, 0), OthersPass(t, algos, 0);
    RefusedTable(t, algos);
    if k < |algos| {
      EnteredOthersAreSet(t, algos, k);
      c := 0;
      NamedPassKeepsSet(others.table, algos, 0, 0);
    } else {
      NoOthersFrom(t, algos, 0);
      c := EnteredItemIsSet(t, algos);
    }
  }

  /** Whether items are refused does not depend on the table. */
  lemma RefusedAlike(t: Table, t': Table, algos: seq<Str>)
    requires algos != []
    ensures SetSpecific(t, algos).ok <==> SetSpecific(t', algos).ok
  {
    SetSpecificIff(t, algos);
    SetSpecificIff(t', algos);
  }

  /** A refused call leaves every table as it was exactly when the first item to be entered is already bad:
      the first item for all "others" if there is one, and otherwise the first item. */
  lemma RefusedUnchangedIff(t: Table, algos: seq<Str>)
    requires algos != [] && !SetSpecific(t, algos).ok
    ensures (forall t': Table :: SetSpecific(t', algos).table == t') <==> NothingEntered(algos)
  {
    if NothingEntered(algos) {
      forall t': Table ensures SetSpecific(t', algos).table == t' {
        NothingEnteredLeavesTable(t', algos);
      }
    } else {
      RefusedAlike(t, Blank(), algos);
      var c := EnteredIsSet(Blank(), algos);
    }
  }

  lemma NamedPassOn(t: Table, algos: seq<Str>, i: nat, c: nat, v: seq<Algo>)
    requires i < |algos| && ParseItem(algos[i]) == Some((c, v))
    ensures c < |t| && NamedPass(t, algos, i) == NamedPass(t[c := v], algos, i + 1)
  {}

  lemma NamedPassStops(t: Table, algos: seq<Str>, i: nat)
    requires i < |algos|
    ensures ParseItem(algos[i]) == None ==> NamedPass(t, algos, i) == Outcome(false, t)
  {}

  /** Without items for all "others", a call that fails after some good items has entered these. */
  lemma RefusedKeepsEarlierItems(t: Table, algos: seq<Str>, items: seq<Item>)
    requires PrintedAt(algos, 0, items) && |items| < |algos| && ParseItem(algos[|items|]) == None
    requires FirstOthers(algos, 0) == |algos|
    ensures var o := SetSpecific(t, algos);
            !o.ok && |o.table| == |t| && forall c | 0 <= c < |t| :: o.table[c] == Latest(items, c, t[c])
  {
    NoOthersFrom(t, algos, 0);
    NamedPassAfterItems(t, algos, 0, items, |items|);
    NamedPassStops(Entered(t, items), algos, |items|);
    EnteredIsLatest(t, items);
  }

  predicate ParsesIfOthers(item: Str) { OpString(item) == "others" ==> Parse(Remain(item)).Some? }

  /** Item k is for all "others", and all such items up to there parse. */
  predicate OthersUpTo(algos: seq<Str>, i: nat, k: nat) {
    && i <= k < |algos| && OpString(algos[k]) == "others"
    && forall j | i <= j <= k :: ParsesIfOthers(algos[j])
  }

  /** Item k is the last one for all "others" that is entered: there is no next one, or it does not parse. */
  predicate LastOthers(algos: seq<Str>, k: nat) {
    && OthersUpTo(algos, 0, k)
    && var j := FirstOthers(algos, k + 1); j < |algos| ==> Parse(Remain(algos[j])).None?
  }

  lemma BetweenOthers(algos: seq<Str>, i: nat, j: nat, x: nat)
    requires i < |algos| && i < x < j == FirstOthers(algos, i + 1)
    ensures ParsesIfOthers(algos[x])
  {
    assert OpString(algos[x]) != "others";
  }

  lemma NextOthers(algos: seq<Str>, i: nat, j: nat)
    requires OthersUpTo(algos, 0, i) && i < j < |algos| && OpString(algos[j]) == "others" && ParsesIfOthers(algos[j])
    requires forall x | i < x < j :: ParsesIfOthers(algos[x])
    ensures OthersUpTo(algos, 0, j)
  {}

  /** There is one if the first item for all "others" parses. */
  lemma LastOthersExists(algos: seq<Str>, i: nat) returns (k: nat)
    requires OthersUpTo(algos, 0, i)
    ensures LastOthers(algos, k)
    decreases |algos| - i
  {
    var j := FirstOthers(algos, i + 1);
    if j < |algos| && Parse(Remain(algos[j])).Some? {
      forall x | i < x < j ensures ParsesIfOthers(algos[x]) {
        BetweenOthers(algos, i, j, x);
      }
      NextOthers(algos, i, j);
      k := LastOthersExists(algos, j);
    } else {
      k := i;
    }
  }

  lemma NoOthersFrom(t: Table, algos: seq<Str>, i: nat)
    requires i <= |algos| && forall j | i <= j < |algos| :: OpString(algos[j]) != "others"
    ensures OthersPass(t, algos, i) == Outcome(true, t)
  {
    OthersSkipTo(t, algos, i);
  }

  lemma {:induction false} OthersCount(t: Table, algos: seq<Str>, i: nat, k: nat)
    requires OthersUpTo(algos, i, k)
    ensures OthersPass(t, algos, i) == OthersPass(ForAll(t, Parse(Remain(algos[k])).value), algos, k + 1)
    decreases k - i
  {
    var v := Parse(Remain(algos[i]));
    assert ParsesIfOthers(algos[i]);
    if i < k && OpString(algos[i]) == "others" {
      OthersCount(ForAll(t, v.value), algos, i + 1, k);
    } else if i < k {
      OthersCount(t, algos, i + 1, k);
    }
  }

  /** The pass after the last item that is entered: to the end, or to an item that does not parse. */
  lemma LastOthersCounts(t: Table, algos: seq<Str>, k: nat)
    requires LastOthers(algos, k)
    ensures OthersPass(t, algos, 0)
         == Outcome(FirstOthers(algos, k + 1) == |algos|, ForAll(t, Parse(Remain(algos[k])).value))
  {
    OthersCount(t, algos, 0, k);
    OthersSkipTo(ForAll(t, Parse(Remain(algos[k])).value), algos, k + 1);
  }

  /** Some item gives operation c the vector v. */
  predicate GivenByItem(algos: seq<Str>, c: nat, v: seq<Algo>) {
    exists i | 0 <= i < |algos| :: ParseItem(algos[i]) == Some((c, v))
  }

  lemma {:induction false} NamedPassEntries(t: Table, algos: seq<Str>, i: nat, c: nat)
    requires i <= |algos| && c < |t|
    ensures var v := NamedPass(t, algos, i).table[c]; v == t[c] || GivenByItem(algos, c, v)
    decreases |algos| - i
  {
    if i < |algos| && ParseItem(algos[i]).Some? {
      var p := ParseItem(algos[i]).value;
      NamedPassEntries(t[p.0 := p.1], algos, i + 1, c);
    }
  }

  /** A call whose first item for all "others" parses is refused, yet leaves nothing of the table as it was:
      every operation has the vector of the last such item that was entered, or, if no later one stopped the
      call, one that an item gave it by name. */
  lemma RefusedOthersOverwrite(t: Table, algos: seq<Str>, k: nat)
    requires LastOthers(algos, k)
    ensures var o, v := SetSpecific(t, algos), Parse(Remain(algos[k])).value;
            && !o.ok && |o.table| == |t|
            && if FirstOthers(algos, k + 1) < |algos| then o.table == ForAll(t, v)
               else forall c | 0 <= c < |t| :: o.table[c] == v || GivenByItem(algos, c, o.table[c])
  {
    OthersNeverAccepted(t, algos, k);
    LastOthersCounts(t, algos, k);
    var base := ForAll(t, Parse(Remain(algos[k])).value);
    forall c | 0 <= c < |t|
      ensures var v := NamedPass(base, algos, 0).table[c]; v == base[c] || GivenByItem(algos, c, v)
    {
      NamedPassEntries(base, algos, 0, c);
    }
  }

  /** The items per operation that a string comes down to, if it does. */
  function ItemsIn(s: Str): (algos: Option<seq<Str>>) {
    match Split(RemoveSpaces(s), '/', None, [])
    case None => None
    case Some(algos) => if Consistent(algos) && !IsCommon(algos) then Some(algos) else None
  }

  /** A name, '=' and something more. */
  predicate IsAssignment(item: Str, name: Str, rest: Str) {
    name != "" && '=' !in name && rest != "" && item == name + ['='] + rest
  }

  ghost predicate Assigns(item: Str) { exists name: Str, rest: Str :: IsAssignment(item, name, rest) }

  lemma AssignsIff(item: Str)
    ensures '=' in item && WellPlaced(item) <==> Assigns(item)
  {
    if '=' in item && WellPlaced(item) {
      var at := Find(item, '=');
      var name: Str, rest: Str := item[..at], item[at + 1..];
      assert item == name + ['='] + rest;
      assert IsAssignment(item, name, rest);
    }
    if name: Str, rest: Str :| IsAssignment(item, name, rest) {
      FindSeparator(item, name, '=', rest);
    }
  }

  lemma SpecificIff(algos: seq<Str>)
    requires algos != []
    ensures Consistent(algos) && !IsCommon(algos) <==> forall i | 0 <= i < |algos| :: Assigns(algos[i])
  {
    forall i | 0 <= i < |algos| ensures '=' in algos[i] && WellPlaced(algos[i]) <==> Assigns(algos[i]) {
      AssignsIff(algos[i]);
    }
    if forall i | 0 <= i < |algos| :: Assigns(algos[i]) {
      assert forall i | 0 <= i < |algos| :: '=' in algos[i];
    }
  }

  /** A string comes down to these items exactly when, without spaces, it is the items joined by '/', and each
      is a name, '=' and something more. */
  lemma ItemsInIff(s: Str, algos: seq<Str>)
    ensures ItemsIn(s) == Some(algos) <==>
            && Splittable(algos, '/', None, 0) && Join(algos, '/') == RemoveSpaces(s)
            && forall i | 0 <= i < |algos| :: Assigns(algos[i])
  {
    SplitIff(RemoveSpaces(s), '/', None, algos);
    if algos != [] {
      SpecificIff(algos);
    }
  }

  lemma ConfigIsItems(t: Table, s: Str)
    requires RemoveSpaces(s) != "" && ItemsIn(s).Some?
    ensures ItemsIn(s).value != [] && SetConfig(t, s) == SetSpecific(t, ItemsIn(s).value)
  {
    SplitIff(RemoveSpaces(s), '/', None, ItemsIn(s).value);
  }

  lemma EmptyHasNoItems(s: Str)
    requires RemoveSpaces(s) == ""
    ensures ItemsIn(s) == None
  {}

  lemma RefusedWithoutItems(t: Table, s: Str)
    requires ItemsIn(s) == None && !SetConfig(t, s).ok
    ensures SetConfig(t, s).table == t
  {}

  lemma RefusedWithoutItemsAlike(t: Table, t': Table, s: Str)
    requires ItemsIn(s) == None
    ensures SetConfig(t, s).ok <==> SetConfig(t', s).ok
  {}

  /** A refused string leaves every table as it was exactly when it does not come down to items per operation,
      or the first item to be entered is already bad. */
  lemma RefusedConfigUnchangedIff(t: Table, s: Str)
    requires !SetConfig(t, s).ok
    ensures (forall t': Table :: SetConfig(t', s).table == t') <==>
            (ItemsIn(s).None? || (ItemsIn(s).value != [] && NothingEntered(ItemsIn(s).value)))
  {
    if ItemsIn(s).None? {
      forall t': Table ensures SetConfig(t', s).table == t' {
        RefusedWithoutItemsAlike(t, t', s);
        RefusedWithoutItems(t', s);
      }
    } else {
      var algos := ItemsIn(s).value;
      if RemoveSpaces(s) == "" {
        EmptyHasNoItems(s);
      }
      ConfigIsItems(t, s);
      forall t': Table ensures SetConfig(t', s) == SetSpecific(t', algos) {
        ConfigIsItems(t', s);
      }
      RefusedUnchangedIff(t, algos);
      if forall t': Table :: SetConfig(t', s).table == t' {
        forall t': Table ensures SetSpecific(t', algos).table == t' {
          assert SetConfig(t', s).table == t';
        }
      }
    }
  }

  // ---------------------------------------------------------------------------------------------
  // Whole configurations
  // ---------------------------------------------------------------------------------------------

  lemma ItemIsField(s: Str, item: Item)
    requires item.Valid() && s == PrintItem(item)
    ensures IsField(s, '/') && ' ' !in s && '=' in s && WellPlaced(s)
  {
    var name, rest := CmdName(item.cmd), Print(item.settings);
    CmdIsPlain(item.cmd);
    PrintIsPlain(item.settings);
    FindSeparator(s, name, '=', rest);
  }

  lemma PrintedItemsAreFields(algos: seq<Str>, items: seq<Item>)
    requires items != [] && PrintedFrom(algos, 0, items)
    ensures algos != [] && forall i | 0 <= i < |algos| :: IsField(algos[i], '/') && ' ' !in algos[i]
    ensures Consistent(algos) && !IsCommon(algos)
  {
    forall i | 0 <= i < |algos| ensures var a := algos[i]; IsField(a, '/') && ' ' !in a && '=' in a && WellPlaced(a) {
      assert algos[0 + i] == PrintItem(items[i]);
      ItemIsField(algos[i], items[i]);
    }
  }

  lemma CommonIsOneItem(u: Str)
    requires Plain(u) && u != ""
    ensures Split(u, '/', None, []) == Some([u]) && Consistent([u]) && IsCommon([u])
  {
    SplitIff(u, '/', None, [u]);
  }

  lemma CommonMeans(t: Table, s: Str, settings: seq<Setting>)
    requires Proper(settings) && RemoveSpaces(s) == Print(settings)
    ensures SetConfig(t, s) == Outcome(true, ForAll(t, Vector(settings)))
  {
    PrintIsPlain(settings);
    CommonIsOneItem(RemoveSpaces(s));
    ParseOfPrint(settings);
  }

  lemma SpecificMeans(t: Table, s: Str, algos: seq<Str>, items: seq<Item>)
    requires items != [] && PrintedFrom(algos, 0, items) && algos != [] && RemoveSpaces(s) == Join(algos, '/')
    ensures SetConfig(t, s) == SetSpecific(t, algos)
  {
    PrintedItemsAreFields(algos, items);
    JoinNonEmpty(algos);
    SplitIff(RemoveSpaces(s), '/', None, algos);
  }

  lemma JoinNonEmpty(algos: seq<Str>)
    requires algos != [] && algos[0] != ""
    ensures Join(algos, '/') != ""
  {}

  /** A string that prints a configuration, with spaces anywhere, is accepted and gives every operation
      what the configuration means. */
  lemma PrintedConfigMeans(t: Table, s: Str, config: Config)
    requires config.Valid() && IsPrintOf(RemoveSpaces(s), config)
    ensures var o := SetConfig(t, s);
            o.ok && |o.table| == |t| && forall c | 0 <= c < |t| :: o.table[c] == Means(t, config, c)
  {
    match config
    case Common(settings) => CommonMeans(t, s, settings);
    case Specific(items) =>
      var algos :| algos != [] && PrintedFrom(algos, 0, items) && RemoveSpaces(s) == Join(algos, '/');
      SpecificMeans(t, s, algos, items);
      SpecificOfPrinted(t, algos, items);
  }

  lemma ConfigOf(t: Table, s: Str) returns (config: Config)
    requires SetConfig(t, s).ok && RemoveSpaces(s) != ""
    ensures config.Valid() && IsPrintOf(RemoveSpaces(s), config)
  {
    var u: Str := RemoveSpaces(s);
    var algos := Split(u, '/', None, []).value;
    SplitIff(u, '/', None, algos);
    if IsCommon(algos) {
      var settings := SettingsPrinted(algos[0], Parse(algos[0]).value);
      config := Common(settings);
    } else {
      var items := SpecificItems(t, algos);
      config := Specific(items);
    }
  }

  /** A string is accepted exactly when, without its spaces, it is empty or prints a configuration; an empty
      one changes nothing. */
  lemma AcceptedIff(t: Table, s: Str)
    ensures SetConfig(t, s).ok <==>
            RemoveSpaces(s) == "" || exists config: Config :: config.Valid() && IsPrintOf(RemoveSpaces(s), config)
    ensures RemoveSpaces(s) == "" ==> SetConfig(t, s).table == t
  {
    if SetConfig(t, s).ok && RemoveSpaces(s) != "" {
      var config := ConfigOf(t, s);
    }
    if config: Config :| config.Valid() && IsPrintOf(RemoveSpaces(s), config) {
      PrintedConfigMeans(t, s, config);
    }
  }

  lemma {:induction false} JoinHasNoSpace(fields: seq<Str>)
    requires fields != [] && forall i | 0 <= i < |fields| :: ' ' !in fields[i]
    ensures ' ' !in Join(fields, '/')
  {
    if |fields| > 1 {
      JoinHasNoSpace(fields[1..]);
    }
  }

  lemma {:induction false} NothingToRemove(s: string)
    requires ' ' !in s
    ensures RemoveSpaces(s) == s
  {
    if s != [] {
      NothingToRemove(s[1..]);
    }
  }

  /** A space anywhere makes no difference. */
  lemma {:induction false} SpacesDoNotMatter(a: string, b: string)
    ensures RemoveSpaces(a + [' '] + b) == RemoveSpaces(a + b)
  {
    if a == [] {
      assert [' '] + b == a + [' '] + b && ([' '] + b)[1..] == b && a + b == b;
    } else {
      assert (a + [' '] + b)[1..] == a[1..] + [' '] + b && (a + b)[1..] == a[1..] + b;
      SpacesDoNotMatter(a[1..], b);
    }
  }

  /** A printed configuration has no spaces to lose. */
  lemma PrintsHaveNoSpaces(s: string, config: Config)
    requires config.Valid() && IsPrintOf(s, config)
    ensures RemoveSpaces(s) == s
  {
    match config {
      case Common(settings) => PrintIsPlain(settings);
      case Specific(items) =>
        var algos :| algos != [] && PrintedFrom(algos, 0, items) && s == Join(algos, '/');
        PrintedItemsAreFields(algos, items);
        JoinHasNoSpace(algos);
    }
    NothingToRemove(s);
  }
}

/**
  The algorithm setting "level0:ring;level1:pairwise;...": splitting, parsing and, as the parser's
  partner, printing.  Positions are 64-bit sizes, and npos is the largest of them, so on an empty string
  "the last position" is npos.
*/
module AlgConfig {
  import opened Common

  const NPOS: nat := 0xFFFF_FFFF_FFFF_FFFF
  const LEVELS: nat := 4

  datatype Algo =
    | DefaultAlgo | Ring | Pipeline | Fullmesh | Hdr | Pairwise | Nhr | NhrV1 | Nb | Null | Na | Ahc | AhcBroke

  /** Strings are shorter than npos. */
  type Str = s: string | |s| < NPOS witness ""

  /** The first position of c in s, or npos. */
  function Find(s: Str, c: char): (i: nat)
    ensures if c in s then i < |s| && s[i] == c && c !in s[..i] else i == NPOS
  {
    if s == [] then NPOS
    else if s[0] == c then 0
    else
      var i := Find(s[1..], c);
      assert i < NPOS ==> s[..i + 1] == [s[0]] + s[1..][..i];
      if i == NPOS then NPOS else i + 1
  }

  /** length() - 1 as a 64-bit size. */
  function LastPos(s: Str): nat {
    if s == [] then NPOS else |s| - 1
  }

  /** substr(0, found) and substr(found + 1); for npos both are the whole string. */
  function Before(s: Str, found: nat): Str
    requires found <= |s| || found == NPOS
  {
    if found == NPOS then s else s[..found]
  }

  function After(s: Str, found: nat): Str
    requires found < |s| || found == NPOS
  {
    if found == NPOS then s else s[found + 1..]
  }

  // ---------------------------------------------------------------------------------------------
  // Splitting
  // ---------------------------------------------------------------------------------------------

  /** The recursive split at `sep`, with what was split off so far in `done`; at most `limit` parts. */
  function Split(s: Str, sep: char, limit: Option<nat>, done: seq<Str>): Option<seq<Str>>
    decreases |s|
  {
    var found := Find(s, sep);
    if found == 0 || found == LastPos(s) then None
    else if limit.Some? && |done| + 1 > limit.value then None
    else if found == NPOS then Some(done + [s])
    else Split(s[found + 1..], sep, limit, done + [s[..found]])
  }

  function Join(fields: seq<Str>, sep: char): string
    requires fields != []
  {
    if |fields| == 1 then fields[0] else fields[0] + [sep] + Join(fields[1..], sep)
  }

  predicate IsField(f: Str, sep: char) { f != "" && sep !in f }

  /** Non-empty fields without separators, and not too many after `used` others. */
  predicate Splittable(fields: seq<Str>, sep: char, limit: Option<nat>, used: nat) {
    && fields != [] && (limit.Some? ==> used + |fields| <= limit.value)
    && forall i | 0 <= i < |fields| :: IsField(fields[i], sep)
  }

  lemma Parts<T>(s: seq<T>, a: seq<T>, x: T, b: seq<T>)
    requires s == a + [x] + b
    ensures |s| == |a| + 1 + |b| && s[..|a|] == a && s[|a|] == x && s[|a| + 1..] == b
  {}

  lemma FindSeparator(s: Str, f: Str, sep: char, rest: Str)
    requires sep !in f && s == f + [sep] + rest
    ensures Find(s, sep) == |f|
  {
    Parts(s, f, sep, rest);
    FirstPosition(s, sep, |f|);
  }

  lemma {:induction false} FirstPosition(s: Str, c: char, i: nat)
    requires i < |s| && s[i] == c && c !in s[..i]
    ensures Find(s, c) == i
  {
    if i > 0 {
      assert s[0] == s[..i][0];
      assert s[1..][..i - 1] == s[..i][1..];
      FirstPosition(s[1..], c, i - 1);
    }
  }

  /** One round of the recursion on a field followed by more. */
  lemma SplitStep(s: Str, f: Str, rest: Str, sep: char, limit: Option<nat>, done: seq<Str>)
    requires IsField(f, sep) && rest != "" && s == f + [sep] + rest
    requires limit.Some? ==> |done| < limit.value
    ensures Split(s, sep, limit, done) == Split(rest, sep, limit, done + [f])
  {
    FindSeparator(s, f, sep, rest);
    Parts(s, f, sep, rest);
  }

  lemma SplitLast(f: Str, sep: char, limit: Option<nat>, done: seq<Str>)
    requires IsField(f, sep) && (limit.Some? ==> |done| < limit.value)
    ensures Split(f, sep, limit, done) == Some(done + [f])
  {}

  lemma JoinTail(fields: seq<Str>, sep: char)
    requires |fields| > 1 && forall i | 0 <= i < |fields| :: IsField(fields[i], sep)
    ensures Join(fields, sep) == fields[0] + [sep] + Join(fields[1..], sep) && Join(fields[1..], sep) != ""
    ensures forall i | 0 <= i < |fields| - 1 :: IsField(fields[1..][i], sep)
  {
    assert IsField(fields[1], sep);
  }

  lemma Regroup<T>(done: seq<T>, fields: seq<T>)
    requires fields != []
    ensures (done + [fields[0]]) + fields[1..] == done + fields
  {}

  lemma {:induction false} SplitOfJoin(s: Str, fields: seq<Str>, sep: char, limit: Option<nat>, done: seq<Str>)
    requires Splittable(fields, sep, limit, |done|) && s == Join(fields, sep)
    ensures Split(s, sep, limit, done) == Some(done + fields)
    decreases |fields|
  {
    var f, tail := fields[0], fields[1..];
    Regroup(done, fields);
    assert IsField(f, sep);
    if |fields| == 1 {
      SplitLast(f, sep, limit, done);
      assert (done + [f]) + tail == done + [f];
    } else {
      JoinTail(fields, sep);
      var rest: Str := Join(tail, sep);
      SplitStep(s, f, rest, sep, limit, done);
      assert Splittable(tail, sep, limit, |done + [f]|);
      SplitOfJoin(rest, tail, sep, limit, done + [f]);
    }
  }

  /** The parts that a split adds to `done`. */
  ghost predicate Added(s: Str, sep: char, limit: Option<nat>, done: seq<Str>, r: seq<Str>, fields: seq<Str>) {
    r == done + fields && Splittable(fields, sep, limit, |done|) && Join(fields, sep) == s
  }

  lemma JoinCons(head: Str, sep: char, fields: seq<Str>)
    requires fields != []
    ensures Join([head] + fields, sep) == head + [sep] + Join(fields, sep)
  {
    assert ([head] + fields)[1..] == fields;
  }

  lemma AddedCons(s: Str, sep: char, limit: Option<nat>, done: seq<Str>, r: seq<Str>,
                  head: Str, tail: Str, rest: seq<Str>)
    requires IsField(head, sep) && s == head + [sep] + tail
    requires Added(tail, sep, limit, done + [head], r, rest)
    ensures Added(s, sep, limit, done, r, [head] + rest)
  {
    JoinCons(head, sep, rest);
    assert done + [head] + rest == done + ([head] + rest);
  }

  /** One round of the recursion: the string is the last field, or splits into a field and the rest. */
  lemma SplitCases(s: Str, sep: char, limit: Option<nat>, done: seq<Str>, r: seq<Str>)
    returns (last: bool, head: Str, tail: Str)
    requires Split(s, sep, limit, done) == Some(r)
    ensures limit.Some? ==> |done| < limit.value
    ensures IsField(head, sep) && if last then s == head && r == done + [s]
                                  else |tail| < |s| && s == head + [sep] + tail
                                       && Split(tail, sep, limit, done + [head]) == Some(r)
  {
    var found := Find(s, sep);
    last := found == NPOS;
    if last {
      head, tail := s, "";
    } else {
      head, tail := s[..found], s[found + 1..];
      assert s == s[..found] + [s[found]] + s[found + 1..];
    }
  }

  lemma AddedLast(s: Str, sep: char, limit: Option<nat>, done: seq<Str>)
    requires IsField(s, sep) && (limit.Some? ==> |done| < limit.value)
    ensures Added(s, sep, limit, done, done + [s], [s])
  {}

  lemma {:induction false} SplitIsSound(s: Str, sep: char, limit: Option<nat>, done: seq<Str>, r: seq<Str>)
    returns (fields: seq<Str>)
    requires Split(s, sep, limit, done) == Some(r)
    ensures Added(s, sep, limit, done, r, fields)
    decreases |s|
  {
    var last, head, tail := SplitCases(s, sep, limit, done, r);
    if last {
      AddedLast(s, sep, limit, done);
      fields := [s];
    } else {
      var rest := SplitIsSound(tail, sep, limit, done + [head], r);
      AddedCons(s, sep, limit, done, r, head, tail, rest);
      fields := [head] + rest;
    }
  }

  /** A string splits exactly when it is the join of non-empty, separator-free fields (at most `limit`), and
      then the result is those fields. */
  lemma SplitIff(s: Str, sep: char, limit: Option<nat>, fields: seq<Str>)
    ensures Split(s, sep, limit, []) == Some(fields) <==> Splittable(fields, sep, limit, 0) && Join(fields, sep) == s
  {
    if Split(s, sep, limit, []) == Some(fields) {
      var parts := SplitIsSound(s, sep, limit, [], fields);
      assert [] + parts == parts;
    }
    if Splittable(fields, sep, limit, 0) && Join(fields, sep) == s {
      SplitOfJoin(s, fields, sep, limit, []);
      assert [] + fields == fields;
    }
  }

  // ---------------------------------------------------------------------------------------------
  // One setting
  // ---------------------------------------------------------------------------------------------

  function LevelOf(s: string): Option<nat> {
    if s == "level0" then Some(0) else if s == "level1" then Some(1)
    else if s == "level2" then Some(2) else if s == "level3" then Some(3) else None
  }

  function LevelName(l: nat): string
    requires l < LEVELS
  {
    if l == 0 then "level0" else if l == 1 then "level1" else if l == 2 then "level2" else "level3"
  }

  function AlgoOf(s: string): Option<Algo> {
    if s == "null" then Some(Null) else if s == "ring" then Some(Ring) else if s == "pipeline" then Some(Pipeline)
    else if s == "fullmesh" then Some(Fullmesh) else if s == "H-D_R" then Some(Hdr)
    else if s == "pairwise" then Some(Pairwise) else if s == "NHR" then Some(Nhr) else if s == "NHR_V1" then Some(NhrV1)
    else if s == "AHC" then Some(Ahc) else if s == "AHC_BROKE" then Some(AhcBroke)
    else if s == "NB" then Some(Nb) else if s == "NA" then Some(Na) else None
  }

  function AlgoName(a: Algo): string {
    match a
    case DefaultAlgo => "default" case Ring => "ring" case Pipeline => "pipeline" case Fullmesh => "fullmesh"
    case Hdr => "H-D_R" case Pairwise => "pairwise" case Nhr => "NHR" case NhrV1 => "NHR_V1" case Nb => "NB"
    case Null => "null" case Na => "NA" case Ahc => "AHC" case AhcBroke => "AHC_BROKE"
  }

  datatype Setting = Setting(level: nat, algo: Algo) {
    predicate Valid() { level < LEVELS && algo != DefaultAlgo }
  }

  function ParseLevel(s: Str): Option<Setting> {
    var found := Find(s, ':');
    if found == 0 || found == LastPos(s) then None
    else
      match (LevelOf(Before(s, found)), AlgoOf(After(s, found)))
      case (Some(l), Some(a)) => Some(Setting(l, a))
      case _ => None
  }

  function PrintSetting(t: Setting): Str
    requires t.Valid()
  {
    LevelNames("", t.level);
    AlgoNames("", t.algo);
    LevelName(t.level) + [':'] + AlgoName(t.algo)
  }

  lemma LevelNames(s: string, l: nat)
    requires l < LEVELS
    ensures LevelOf(s) == Some(l) <==> s == LevelName(l)
    ensures LevelOf(s).Some? ==> LevelOf(s).value < LEVELS && |s| == 6 && s[0] == 'l'
    ensures ':' !in LevelName(l) && ';' !in LevelName(l)
  {}

  lemma AlgoNames(s: string, a: Algo)
    requires a != DefaultAlgo
    ensures AlgoOf(s) == Some(a) <==> s == AlgoName(a)
    ensures AlgoOf(s).Some? ==> AlgoOf(s).value != DefaultAlgo && |s| > 0 && s[0] != 'l'
    ensures |AlgoName(a)| <= 9 && AlgoName(a) != "" && ';' !in AlgoName(a)
  {}

  /** A field parses to a setting exactly when it is that setting printed; a field without a colon never
      parses, although the source then looks the whole field up in both tables. */
  lemma ParseLevelIff(s: Str, t: Setting)
    ensures ParseLevel(s) == Some(t) <==> t.Valid() && s == PrintSetting(t)
  {
    if ParseLevel(s) == Some(t) {
      var found := Find(s, ':');
      LevelNames(Before(s, found), 0);
      AlgoNames(After(s, found), Ring);
      LevelNames(Before(s, found), t.level);
      AlgoNames(After(s, found), t.algo);
      assert found != NPOS;
      assert s == Before(s, found) + [':'] + After(s, found);
    }
    if t.Valid() && s == PrintSetting(t) {
      LevelNames(LevelName(t.level), t.level);
      AlgoNames(AlgoName(t.algo), t.algo);
      FindSeparator(s, LevelName(t.level), ':', AlgoName(t.algo));
      var found := Find(s, ':');
      assert Before(s, found) == LevelName(t.level) && After(s, found) == AlgoName(t.algo);
    }
  }

  // ---------------------------------------------------------------------------------------------
  // The whole string
  // ---------------------------------------------------------------------------------------------

  function Unset(): (v: seq<Algo>)
    ensures |v| == LEVELS
  {
    seq(LEVELS, _ => DefaultAlgo)
  }

  /** Parses the fields from the i-th on into the vector v of one algorithm per level. */
  function ParseFields(fields: seq<Str>, i: nat, v: seq<Algo>): (r: Option<seq<Algo>>)
    requires i <= |fields| && |v| == LEVELS
    ensures r.Some? ==> |r.value| == LEVELS
    decreases |fields| - i
  {
    if i == |fields| then Some(v)
    else
      match ParseLevel(fields[i])
      case None => None
      case Some(t) =>
        if t.level >= LEVELS || v[t.level] != DefaultAlgo then None
        else ParseFields(fields, i + 1, v[t.level := t.algo])
  }

  function Parse(s: Str): (r: Option<seq<Algo>>)
    ensures r.Some? ==> |r.value| == LEVELS
  {
    match Split(s, ';', Some(LEVELS), [])
    case None => None
    case Some(fields) => ParseFields(fields, 0, Unset())
  }

  predicate AllValid(settings: seq<Setting>) { forall i | 0 <= i < |settings| :: settings[i].Valid() }

  predicate DistinctLevels(settings: seq<Setting>) {
    forall i, j | 0 <= i < j < |settings| :: settings[i].level != settings[j].level
  }

  function PrintFields(settings: seq<Setting>): (fields: seq<Str>)
    requires AllValid(settings)
    ensures |fields| == |settings| && forall i | 0 <= i < |fields| :: fields[i] == PrintSetting(settings[i])
  {
    seq(|settings|, i requires 0 <= i < |settings| => PrintSetting(settings[i]))
  }

  function Print(settings: seq<Setting>): string
    requires settings != [] && AllValid(settings)
  {
    Join(PrintFields(settings), ';')
  }

  /** The settings from the i-th on, entered into v. */
  function Enter(settings: seq<Setting>, i: nat, v: seq<Algo>): (r: seq<Algo>)
    requires i <= |settings| && |v| == LEVELS && AllValid(settings)
    ensures |r| == LEVELS
    decreases |settings| - i
  {
    if i == |settings| then v else Enter(settings, i + 1, v[settings[i].level := settings[i].algo])
  }

  lemma PrintedFieldsSplittable(settings: seq<Setting>)
    requires settings != [] && AllValid(settings)
    ensures forall i | 0 <= i < |settings| :: IsField(PrintFields(settings)[i], ';')
  {
    forall i | 0 <= i < |settings| ensures IsField(PrintFields(settings)[i], ';') {
      LevelNames("", settings[i].level);
      AlgoNames("", settings[i].algo);
    }
  }

  predicate FreshFrom(settings: seq<Setting>, i: nat, v: seq<Algo>)
    requires |v| == LEVELS && AllValid(settings)
  {
    forall k | i <= k < |settings| :: v[settings[k].level] == DefaultAlgo
  }

  lemma FreshNext(settings: seq<Setting>, i: nat, v: seq<Algo>)
    requires i < |settings| && |v| == LEVELS && AllValid(settings)
    requires FreshFrom(settings, i, v) && DistinctLevels(settings)
    ensures FreshFrom(settings, i + 1, v[settings[i].level := settings[i].algo])
  {}

  lemma {:induction false} ParsePrintedFields(settings: seq<Setting>, i: nat, v: seq<Algo>)
    requires i <= |settings| && |v| == LEVELS && AllValid(settings)
    requires FreshFrom(settings, i, v) && DistinctLevels(settings)
    ensures ParseFields(PrintFields(settings), i, v) == Some(Enter(settings, i, v))
    decreases |settings| - i
  {
    if i < |settings| {
      var t := settings[i];
      ParseLevelIff(PrintSetting(t), t);
      FreshNext(settings, i, v);
      ParsePrintedFields(settings, i + 1, v[t.level := t.algo]);
    }
  }

  function LevelSet(settings: seq<Setting>): set<nat> { set t | t in settings :: t.level }

  lemma {:induction false} DistinctLevelsCount(settings: seq<Setting>)
    requires DistinctLevels(settings)
    ensures |LevelSet(settings)| == |settings|
  {
    if settings != [] {
      var n := |settings| - 1;
      var init := settings[..n];
      DistinctLevelsCount(init);
      assert settings == init + [settings[n]];
      assert LevelSet(settings) == LevelSet(init) + {settings[n].level};
      assert settings[n].level !in LevelSet(init);
    }
  }

  lemma AtMostFour(settings: seq<Setting>)
    requires AllValid(settings) && DistinctLevels(settings)
    ensures |settings| <= LEVELS
  {
    DistinctLevelsCount(settings);
    var all: set<nat> := {0, 1, 2, 3};
    assert LevelSet(settings) <= all;
    SubsetSize(LevelSet(settings), all);
  }

  lemma {:induction false} SubsetSize(a: set<nat>, b: set<nat>)
    requires a <= b
    ensures |a| <= |b|
  {
    if a != {} {
      var x :| x in a;
      SubsetSize(a - {x}, b - {x});
    }
  }

  /** Printing settings of distinct levels, in any order, and parsing the string gives the settings back. */
  lemma ParseOfPrint(settings: seq<Setting>)
    requires settings != [] && AllValid(settings) && DistinctLevels(settings) && |Print(settings)| < NPOS
    ensures Parse(Print(settings)) == Some(Enter(settings, 0, Unset()))
  {
    AtMostFour(settings);
    PrintedFieldsSplittable(settings);
    SplitIff(Print(settings), ';', Some(LEVELS), PrintFields(settings));
    ParsePrintedFields(settings, 0, Unset());
  }

  /** The settings are what the fields from the i-th on stand for, and can be entered into v. */
  predicate Stands(fields: seq<Str>, i: nat, v: seq<Algo>, settings: seq<Setting>)
    requires i <= |fields| && |v| == LEVELS
  {
    && AllValid(settings) && PrintFields(settings) == fields[i..] && DistinctLevels(settings)
    && FreshFrom(settings, 0, v) && ParseFields(fields, i, v) == Some(Enter(settings, 0, v))
  }

  lemma EnterCons(t: Setting, rest: seq<Setting>, v: seq<Algo>)
    requires |v| == LEVELS && t.Valid() && AllValid(rest) && AllValid([t] + rest)
    ensures Enter([t] + rest, 0, v) == Enter(rest, 0, v[t.level := t.algo])
  {
    EnterShift([t] + rest, rest, 0, v[t.level := t.algo]);
  }

  lemma StandsCons(fields: seq<Str>, i: nat, v: seq<Algo>, t: Setting, rest: seq<Setting>)
    requires i < |fields| && |v| == LEVELS && t.Valid() && v[t.level] == DefaultAlgo && fields[i] == PrintSetting(t)
    requires ParseFields(fields, i, v) == ParseFields(fields, i + 1, v[t.level := t.algo])
    requires Stands(fields, i + 1, v[t.level := t.algo], rest)
    ensures Stands(fields, i, v, [t] + rest)
  {
    FreshCons(t, rest, v);
    EnterCons(t, rest, v);
    PrintConsFields(fields, i, t, rest);
  }

  lemma PrintConsFields(fields: seq<Str>, i: nat, t: Setting, rest: seq<Setting>)
    requires i < |fields| && t.Valid() && AllValid(rest) && AllValid([t] + rest)
    requires fields[i] == PrintSetting(t) && PrintFields(rest) == fields[i + 1..]
    ensures PrintFields([t] + rest) == fields[i..]
  {
    PrintCons(t, rest);
    assert fields[i..] == [fields[i]] + fields[i + 1..];
  }

  lemma PrintCons(t: Setting, rest: seq<Setting>)
    requires t.Valid() && AllValid(rest) && AllValid([t] + rest)
    ensures PrintFields([t] + rest) == [PrintSetting(t)] + PrintFields(rest)
  {}

  /** The settings that successfully parsed fields stand for. */
  lemma {:induction false} SettingsOf(fields: seq<Str>, i: nat, v: seq<Algo>) returns (settings: seq<Setting>)
    requires i <= |fields| && |v| == LEVELS && ParseFields(fields, i, v).Some?
    ensures Stands(fields, i, v, settings)
    decreases |fields| - i
  {
    if i == |fields| {
      settings := [];
    } else {
      var t := ParseLevel(fields[i]).value;
      ParseLevelIff(fields[i], t);
      var rest := SettingsOf(fields, i + 1, v[t.level := t.algo]);
      StandsCons(fields, i, v, t, rest);
      settings := [t] + rest;
    }
  }

  lemma FreshCons(t: Setting, rest: seq<Setting>, v: seq<Algo>)
    requires |v| == LEVELS && t.Valid() && AllValid(rest) && v[t.level] == DefaultAlgo
    requires DistinctLevels(rest) && FreshFrom(rest, 0, v[t.level := t.algo])
    ensures AllValid([t] + rest) && DistinctLevels([t] + rest) && FreshFrom([t] + rest, 0, v)
  {
    var s := [t] + rest;
    forall k | 0 <= k < |rest| ensures rest[k].level != t.level && v[rest[k].level] == DefaultAlgo {
      assert v[t.level := t.algo][rest[k].level] == DefaultAlgo;
    }
    forall i, j | 0 <= i < j < |s| ensures s[i].level != s[j].level {
      assert s[j] == rest[j - 1];
      assert i > 0 ==> s[i] == rest[i - 1];
    }
  }

  lemma {:induction false} EnterShift(settings: seq<Setting>, rest: seq<Setting>, i: nat, v: seq<Algo>)
    requires AllValid(settings) && AllValid(rest) && settings != [] && settings[1..] == rest
    requires i <= |rest| && |v| == LEVELS
    ensures Enter(settings, i + 1, v) == Enter(rest, i, v)
    decreases |rest| - i
  {
    if i < |rest| {
      assert settings[i + 1] == settings[1..][i];
      EnterShift(settings, rest, i + 1, v[rest[i].level := rest[i].algo]);
    }
  }

  /** A string parses exactly when it is printed from settings of distinct levels, and to their vector. */
  lemma ParseIff(s: Str, v: seq<Algo>)
    ensures Parse(s) == Some(v) <==>
            exists settings ::
              settings != [] && AllValid(settings) && DistinctLevels(settings)
              && Print(settings) == s && Enter(settings, 0, Unset()) == v
  {
    if Parse(s) == Some(v) {
      var fields := Split(s, ';', Some(LEVELS), []).value;
      SplitIff(s, ';', Some(LEVELS), fields);
      var settings := SettingsOf(fields, 0, Unset());
      assert fields[0..] == fields;
      assert Print(settings) == s;
    }
    if settings :|
      settings != [] && AllValid(settings) && DistinctLevels(settings)
      && Print(settings) == s && Enter(settings, 0, Unset()) == v
    {
      ParseOfPrint(settings);
    }
  }

  /** The fields of a printed string are the printed settings. */
  lemma PrintedSplitsBack(settings: seq<Setting>, fields: seq<Str>)
    requires settings != [] && AllValid(settings) && |Print(settings)| < NPOS
    requires Split(Print(settings), ';', Some(LEVELS), []) == Some(fields)
    ensures fields == PrintFields(settings)
  {
    PrintedFieldsSplittable(settings);
    SplitIff(Print(settings), ';', Some(LEVELS), fields);
    SplitIff(Print(settings), ';', None, fields);
    SplitIff(Print(settings), ';', None, PrintFields(settings));
  }

  /** Settings that name a level twice never parse. */
  lemma DuplicateLevelsFail(settings: seq<Setting>)
    requires settings != [] && AllValid(settings) && !DistinctLevels(settings) && |Print(settings)| < NPOS
    ensures Parse(Print(settings)) == None
  {
    if Parse(Print(settings)).Some? {
      var fields := Split(Print(settings), ';', Some(LEVELS), []).value;
      PrintedSplitsBack(settings, fields);
      var parsed := SettingsOf(fields, 0, Unset());
      assert fields[0..] == fields;
      PrintFieldsInjective(settings, parsed);
    }
  }

  lemma PrintFieldsInjective(a: seq<Setting>, b: seq<Setting>)
    requires AllValid(a) && AllValid(b) && PrintFields(a) == PrintFields(b)
    ensures a == b
  {
    forall i | 0 <= i < |a| ensures a[i] == b[i] {
      assert PrintFields(a)[i] == PrintFields(b)[i];
      LevelNames("", a[i].level);
      AlgoNames("", a[i].algo);
      ParseLevelIff(PrintSetting(a[i]), a[i]);
      ParseLevelIff(PrintSetting(b[i]), b[i]);
    }
  }

  // ---------------------------------------------------------------------------------------------
  // Items of a setting per operation
  // ---------------------------------------------------------------------------------------------

  /** The item has something before and after its first '='. */
  predicate WellPlaced(item: Str) {
    item != "" && item[0] != '=' && ('=' in item ==> Find(item, '=') < |item| - 1)
  }

  /** Either every item names an operation, or there is one item and it names none. */
  predicate Consistent(algos: seq<Str>) {
    && (forall i | 0 <= i < |algos| :: WellPlaced(algos[i]))
    && ((forall i | 0 <= i < |algos| :: '=' in algos[i]) || IsCommon(algos))
  }

  predicate IsCommon(algos: seq<Str>) { |algos| == 1 && '=' !in algos[0] }
}
